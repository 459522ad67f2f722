/**
 * play.py: the glue between the screen and the game. A recognised Cell
 * becomes a grid count, a grid cell becomes the pixel at its centre, and
 * a click on a cell is a guarded sequence of requests to the robot
 * server, whose replies are given as a function of the requests made so
 * far.
 */
module RobotPlay {
  import opened Wrappers
  import opened Grid
  import Engine
  import opened ScreenGrid

  /**
   * Minesweeper.UNOPENED and Minesweeper.FLAG, which the game class does
   * not define; their values are parameters of the model.
   */
  datatype Sentinels = Sentinels(unopened: int, flag: int)

  /** The sentinels stand apart from the counts 0 .. 8, from MINE and from each other. */
  predicate Separate(s: Sentinels)
  {
    !(0 <= s.unopened <= 8) && !(0 <= s.flag <= 8) &&
    s.unopened != Engine.MINE && s.flag != Engine.MINE && s.unopened != s.flag
  }

  datatype PlayError =
    | KeyError(cell: Cell)          // to_count of a cell with no entry
    | NotImplemented(action: Action) // click with an action other than OPEN
    | ValueError(at: Point)          // the mouse did not reach the target pixel

  datatype Action = Open | Flag | Unflag

  /** The count of a digit cell. */
  function DigitCount(c: Cell): (d: int)
  {
    match c
    case C0 => 0
    case C1 => 1
    case C2 => 2
    case C3 => 3
    case C4 => 4
    case C5 => 5
    case C6 => 6
    case C7 => 7
    case C8 => 8
    case _ => -1
  }

  predicate IsDigitCell(c: Cell)
  {
    c in {C0, C1, C2, C3, C4, C5, C6, C7, C8}
  }

  /**
   * RobotMinesweeper.to_count: digits become their counts, UNOPENED, FLAG
   * and MINE the game's sentinels; UNKNOWN has no entry and is a KeyError.
   */
  function ToCount(c: Cell, s: Sentinels): (r: Result<int, PlayError>)
    ensures r.Err? <==> c == Unknown
    ensures r.Err? ==> r.error == PlayError.KeyError(Unknown)
    ensures IsDigitCell(c) ==> r == Ok(DigitCount(c)) && 0 <= r.value <= 8
    ensures c == Unopened ==> r == Ok(s.unopened)
    ensures c == Cell.Flag ==> r == Ok(s.flag)
    ensures c == Mine ==> r == Ok(Engine.MINE)
  {
    match c
    case Unopened => Ok(s.unopened)
    case Flag => Ok(s.flag)
    case Mine => Ok(Engine.MINE)
    case Unknown => Err(PlayError.KeyError(Unknown))
    case _ => Ok(DigitCount(c))
  }

  /** A digit cell's count is the digit it prints. */
  lemma ToCountPrintsDigit(c: Cell, s: Sentinels)
    requires IsDigitCell(c)
    ensures ToCount(c, s).Ok? && Glyph(c) == [(ToCount(c, s).value + '0' as int) as char]
  {
  }

  /**
   * With separate sentinels no two recognised cells get the same count,
   * so the count a cell was turned into names that cell.
   */
  lemma ToCountInjective(a: Cell, b: Cell, s: Sentinels)
    requires Separate(s)
    requires ToCount(a, s).Ok? && ToCount(b, s).Ok? && ToCount(a, s).value == ToCount(b, s).value
    ensures a == b
  {
  }

  /**
   * Every cell a template name stands for converts: identify_cell never
   * hands to_count an UNKNOWN.
   */
  lemma ImageCellsConvert(name: string, s: Sentinels)
    requires ImageCell(name).Some?
    ensures ToCount(ImageCell(name).value, s).Ok?
  {
  }

  /** mid_point(slice): the start plus half the length, rounded down. */
  function MidPoint(sl: Slice): int
  {
    sl.start + (sl.stop - sl.start) / 2
  }

  /**
   * location(cellx, celly): cell_dims(cellx, celly) is (ys, xs), and the
   * result is (mid_point(xs), mid_point(ys)), a pixel (x, y).
   */
  function Location(b: ScreenBoard, cellx: int, celly: int): (p: Point)
    ensures b.cellWidth >= 1 && b.cellHeight >= 1 ==> InCell(b, cellx, celly, p.1, p.0)
  {
    var (ys, xs) := CellDims(b, cellx, celly);
    (MidPoint(xs), MidPoint(ys))
  }

  /** The cell under a pixel: its row from y, its column from x. */
  function CellAt(b: ScreenBoard, p: Point): (cell: Point)
    requires b.cellWidth >= 1 && b.cellHeight >= 1
    ensures InCell(b, cell.0, cell.1, p.1, p.0)
  {
    var row := p.1 / b.cellHeight;
    var col := p.0 / b.cellWidth;
    assert (row + 1) * b.cellHeight == row * b.cellHeight + b.cellHeight;
    assert (col + 1) * b.cellWidth == col * b.cellWidth + b.cellWidth;
    (row, col)
  }

  /** The pixel location picks for a cell lies in that cell and in no other. */
  lemma LocationRoundTrip(b: ScreenBoard, cellx: int, celly: int)
    requires b.cellWidth >= 1 && b.cellHeight >= 1
    ensures CellAt(b, Location(b, cellx, celly)) == (cellx, celly)
  {
    var p := Location(b, cellx, celly);
    var c := CellAt(b, p);
    if c != (cellx, celly) {
      CellsDisjoint(b, c.0, c.1, cellx, celly, p.1, p.0);
    }
  }

  /** A request to the robot server. */
  datatype Request = MouseMove(x: int, y: int) | MouseClick | Screencap

  /** n mouse moves to (x, y). */
  function Moves(x: int, y: int, n: nat): (r: seq<Request>)
    ensures |r| == n
    ensures forall i :: 0 <= i < n ==> r[i] == MouseMove(x, y)
  {
    if n == 0 then [] else Moves(x, y, n - 1) + [MouseMove(x, y)]
  }

  /**
   * The Robot client. The server is a function from the requests made so
   * far (the last being the one answered) to the (x, y) of its JSON reply.
   */
  class Robot {
    const server: seq<Request> -> Point
    var log: seq<Request>

    constructor (server: seq<Request> -> Point)
      ensures this.server == server && log == []
    {
      this.server := server;
      log := [];
    }

    /** __request: send one request and read the reply. */
    method Send(req: Request) returns (reply: Point)
      modifies this
      ensures log == old(log) + [req]
      ensures reply == server(log)
    {
      log := log + [req];
      reply := server(log);
    }

    /**
     * move_to: ask for the move up to ten times, stopping at the first
     * reply that is the target, and return the last reply.
     */
    method MoveTo(x: int, y: int) returns (p: Point)
      modifies this
      ensures 1 <= |log| - |old(log)| <= 10
      ensures log == old(log) + Moves(x, y, |log| - |old(log)|)
      ensures p == server(log)
      ensures p == (x, y) || |log| - |old(log)| == 10
      ensures forall k :: |old(log)| < k < |log| ==> server(log[..k]) != (x, y)
    {
      var start := log;
      var rx, ry := -1, -1;
      var tries := 0;
      while tries < 10
        invariant 0 <= tries <= 10
        invariant log == start + Moves(x, y, tries)
        invariant forall k :: |start| < k <= |log| ==> server(log[..k]) != (x, y)
        invariant tries > 0 ==> (rx, ry) == server(log)
      {
        ghost var before := log;
        var reply := Send(MouseMove(x, y));
        rx, ry := reply.0, reply.1;
        tries := tries + 1;
        assert log[..|log|] == log;
        forall k | |start| < k < |log| ensures server(log[..k]) != (x, y) {
          assert log[..k] == before[..k];
        }
        if rx == x && ry == y {
          return (x, y);
        }
      }
      return (rx, ry);
    }

    /** click: one mouse click. */
    method Click() returns (p: Point)
      modifies this
      ensures log == old(log) + [MouseClick]
      ensures p == server(log)
    {
      p := Send(MouseClick);
    }
  }

  /** RobotMinesweeper: the robot and the located board. */
  class RobotGame {
    const robot: Robot
    const board: ScreenBoard

    constructor (robot: Robot, board: ScreenBoard)
      ensures this.robot == robot && this.board == board
    {
      this.robot := robot;
      this.board := board;
    }

    /**
     * click(xy, action): only OPEN is implemented, and it is refused
     * before any request. Otherwise move to the cell's centre; if the
     * mouse reports another position, fail without clicking; else click.
     */
    method Click(xy: Point, action: Action) returns (r: Outcome<PlayError>)
      modifies robot
      ensures action != Open ==> r == Fail(NotImplemented(action)) && robot.log == old(robot.log)
      ensures action == Open ==> exists n: nat :: (1 <= n <= 10 &&
        var moves := old(robot.log) + Moves(Location(board, xy.0, xy.1).0, Location(board, xy.0, xy.1).1, n);
        && (forall k :: |old(robot.log)| < k < |moves| ==> robot.server(moves[..k]) != Location(board, xy.0, xy.1))
        && (robot.server(moves) != Location(board, xy.0, xy.1) ==> n == 10)
        && if robot.server(moves) == Location(board, xy.0, xy.1) then
          r == Pass && robot.log == moves + [MouseClick]
        else
          r == Fail(ValueError(Location(board, xy.0, xy.1))) && robot.log == moves)
    {
      if action != Open {
        return Fail(NotImplemented(action));
      }
      var (px, py) := Location(board, xy.0, xy.1);
      var reached := robot.MoveTo(px, py);
      ghost var n := |robot.log| - |old(robot.log)|;
      ghost var moves := robot.log;
      if reached.0 != px || reached.1 != py {
        return Fail(ValueError((px, py)));
      }
      var _ := robot.Click();
      assert robot.log == moves + [MouseClick];
      return Pass;
    }
  }
}
