/**
 * The Minesweeper simulation of minesweeper.py (class Minesweeper): a
 * visible grid of cell values and a hidden mine layout, both Boards, with
 * the neighbour mine count, the recursive opening of zero regions and the
 * explosion that rewrites the whole grid.
 */
module Engine {
  import opened Wrappers
  import opened Grid
  import Decimal
  import Text

  const MINE: int := 10
  const UNNO: int := 11
  const EXPLODED: int := -1

  /**
   * A value held by the visible grid: an int, or Python's True, which
   * _explode stores on every mine. True compares equal to 1 but is rendered
   * as "True".
   */
  datatype CellValue = IntVal(v: int) | TrueVal

  const Unno: CellValue := IntVal(UNNO)

  datatype OpenError =
    | AlreadyExploded          // ValueError("Exploded")
    | ExplodedAt(at: Point)    // ValueError(f"Exploded at ({x}, {y})")
    | KeyError(key: Point)

  /** The number of points of ps that are mines in layout. */
  function CountMines(ps: seq<Point>, layout: map<Point, bool>): (c: nat)
    requires forall q :: q in ps ==> q in layout
    ensures c <= |ps|
    ensures c == 0 <==> forall q :: q in ps ==> !layout[q]
  {
    if ps == [] then 0
    else (if layout[ps[0]] then 1 else 0) + CountMines(ps[1..], layout)
  }

  /** The mines of layout among the given points. */
  function MinesAmong(ps: seq<Point>, layout: map<Point, bool>): set<Point>
  {
    set q | q in ps && q in layout && layout[q]
  }

  /** Over points without repeats, CountMines is the number of distinct mines among them. */
  lemma {:induction false} CountMinesIsCardinality(ps: seq<Point>, layout: map<Point, bool>)
    requires forall q :: q in ps ==> q in layout
    requires StrictlyOrdered(ps)
    ensures CountMines(ps, layout) == |MinesAmong(ps, layout)|
  {
    if ps != [] {
      var tail := ps[1..];
      CountMinesIsCardinality(tail, layout);
      forall k | 0 <= k < |tail| ensures tail[k] != ps[0] {
        assert Before(ps[0], ps[k + 1]);
      }
      assert ps[0] !in tail;
      if layout[ps[0]] {
        assert MinesAmong(ps, layout) == {ps[0]} + MinesAmong(tail, layout);
      } else {
        assert MinesAmong(ps, layout) == MinesAmong(tail, layout);
      }
    }
  }

  /** The mines of layout adjacent to p. */
  function AdjacentMines(layout: map<Point, bool>, p: Point): set<Point>
  {
    set q | q in layout && Adjacent(p, q) && layout[q]
  }

  /**
   * _minecount(p): the mines among the on-board neighbours of p (the board's
   * points are the layout's keys); 0 exactly when no neighbour is a mine.
   */
  function MinesAround(layout: map<Point, bool>, p: Point): (c: nat)
    ensures c <= 8
    ensures c == 0 <==> forall q :: q in layout && Adjacent(p, q) ==> !layout[q]
  {
    CountMines(NeighborsIn(layout.Keys, p.0, p.1), layout)
  }

  /** The mine count is the number of mines adjacent to p; p itself is never counted. */
  lemma MinesAroundCountsAdjacent(layout: map<Point, bool>, p: Point)
    ensures MinesAround(layout, p) == |AdjacentMines(layout, p)|
    ensures p !in AdjacentMines(layout, p)
  {
    var nbrs := NeighborsIn(layout.Keys, p.0, p.1);
    CountMinesIsCardinality(nbrs, layout);
    assert MinesAmong(nbrs, layout) == AdjacentMines(layout, p);
  }

  /** What the nested loops of _explode write at q. */
  function Rewritten(layout: map<Point, bool>, q: Point): CellValue
    requires q in layout
  {
    if layout[q] then TrueVal else IntVal(MinesAround(layout, q))
  }

  /**
   * Part way through _explode's loops: the cells before (i, j) in row-major
   * order are rewritten, the others still hold their values from before.
   */
  ghost predicate RewrittenUpTo(
    layout: map<Point, bool>, before: map<Point, CellValue>, cells: map<Point, CellValue>, i: int, j: int)
  {
    forall q :: q in cells ==> (
      && q in layout && q in before
      && cells[q] == if q.0 < i || (q.0 == i && q.1 < j) then Rewritten(layout, q) else before[q])
  }

  /** Rewriting cell (i, j) moves the frontier one cell on. */
  lemma RewriteStep(
    layout: map<Point, bool>, before: map<Point, CellValue>, cells: map<Point, CellValue>, i: int, j: int, v: CellValue)
    requires RewrittenUpTo(layout, before, cells, i, j)
    requires (i, j) in cells && (i, j) in layout && v == Rewritten(layout, (i, j))
    ensures RewrittenUpTo(layout, before, cells[(i, j) := v], i, j + 1)
  {
  }

  /** A row whose every cell is rewritten leaves the frontier at the start of the next row. */
  lemma RowRewritten(
    layout: map<Point, bool>, before: map<Point, CellValue>, cells: map<Point, CellValue>, i: int, j: int)
    requires RewrittenUpTo(layout, before, cells, i, j)
    requires forall q :: q in cells ==> 0 <= q.1 < j
    ensures RewrittenUpTo(layout, before, cells, i + 1, 0)
  {
  }

  /** The value _explode leaves at q once the mine at target went off. */
  function ExplodedValue(layout: map<Point, bool>, target: Point, q: Point): CellValue
    requires q in layout
  {
    if q == target then IntVal(EXPLODED) else Rewritten(layout, q)
  }

  /** Once every row is rewritten, marking the target EXPLODED leaves the board _explode promises. */
  lemma AllRewritten(
    layout: map<Point, bool>, before: map<Point, CellValue>, cells: map<Point, CellValue>, target: Point, m: int)
    requires RewrittenUpTo(layout, before, cells, m, 0)
    requires forall q :: q in cells ==> q.0 < m
    requires target in cells
    ensures forall q :: q in cells[target := IntVal(EXPLODED)] ==>
      q in layout && cells[target := IntVal(EXPLODED)][q] == ExplodedValue(layout, target, q)
  {
  }


  /** The points of the (point, count) pairs, in order. */
  function Firsts(pairs: seq<(Point, int)>): (r: seq<Point>)
    ensures |r| == |pairs|
    ensures forall i :: 0 <= i < |pairs| ==> r[i] == pairs[i].0
  {
    seq(|pairs|, i requires 0 <= i < |pairs| => pairs[i].0)
  }

  predicate Distinct(ps: seq<Point>)
  {
    forall i, j :: 0 <= i < j < |ps| ==> ps[i] != ps[j]
  }

  /** The cells showing UNNO. */
  ghost function UnnoOf(cells: map<Point, CellValue>): set<Point>
  {
    set q | q in cells && cells[q] == Unno
  }

  /** Every pair was an unopened non-mine in before and carries that cell's mine count. */
  ghost predicate RevealedFrom(layout: map<Point, bool>, before: map<Point, CellValue>, pairs: seq<(Point, int)>)
  {
    forall i :: 0 <= i < |pairs| ==>
      && pairs[i].0 in layout && !layout[pairs[i].0]
      && pairs[i].0 in before && before[pairs[i].0] == Unno
      && pairs[i].1 == MinesAround(layout, pairs[i].0)
  }

  /** after differs from before exactly at the revealed points, which show their counts. */
  ghost predicate OnlyRevealedChanged(
    layout: map<Point, bool>, before: map<Point, CellValue>, after: map<Point, CellValue>, pairs: seq<(Point, int)>)
  {
    && before.Keys == after.Keys
    && forall q :: q in after ==>
         after[q] == if q in Firsts(pairs) then IntVal(MinesAround(layout, q)) else before[q]
  }

  /** No neighbour of a revealed zero still shows UNNO. */
  ghost predicate ZerosClosed(cells: map<Point, CellValue>, pairs: seq<(Point, int)>)
  {
    forall i :: 0 <= i < |pairs| && pairs[i].1 == 0 ==>
      forall q :: q in cells && Adjacent(pairs[i].0, q) ==> cells[q] != Unno
  }

  /**
   * Every pair after the first was reached from an earlier pair that
   * counted 0 and is adjacent to it: _open only recurses into the
   * neighbours of a cell that showed 0.
   */
  ghost predicate ReachedThroughZeros(pairs: seq<(Point, int)>)
  {
    forall i :: 0 < i < |pairs| ==> HasZeroParent(pairs, i)
  }

  /** Some earlier pair counted 0 and is adjacent to pair i. */
  ghost predicate HasZeroParent(pairs: seq<(Point, int)>, i: int)
  {
    && 0 <= i < |pairs|
    && exists j :: 0 <= j < i && pairs[j].1 == 0 && Adjacent(pairs[j].0, pairs[i].0)
  }

  /**
   * Appending what opening a neighbour q of a zero first pair reveals
   * (nothing, or a run starting at q) keeps every pair reached.
   */
  lemma ReachedAppend(pairs: seq<(Point, int)>, sub: seq<(Point, int)>, q: Point)
    requires |pairs| >= 1 && pairs[0].1 == 0 && Adjacent(pairs[0].0, q)
    requires ReachedThroughZeros(pairs) && ReachedThroughZeros(sub)
    requires sub == [] || sub[0].0 == q
    ensures ReachedThroughZeros(pairs + sub)
  {
    var all := pairs + sub;
    forall i | 0 < i < |all| ensures HasZeroParent(all, i) {
      if i < |pairs| {
        assert HasZeroParent(pairs, i);
        var j :| 0 <= j < i && pairs[j].1 == 0 && Adjacent(pairs[j].0, pairs[i].0);
        assert all[j] == pairs[j] && all[i] == pairs[i];
        assert 0 <= j < i && all[j].1 == 0 && Adjacent(all[j].0, all[i].0);
      } else if i == |pairs| {
        assert all[0] == pairs[0] && all[i] == sub[0];
        assert 0 <= 0 < i && all[0].1 == 0 && Adjacent(all[0].0, all[i].0);
      } else {
        var k := i - |pairs|;
        assert HasZeroParent(sub, k);
        var j :| 0 <= j < k && sub[j].1 == 0 && Adjacent(sub[j].0, sub[k].0);
        assert all[|pairs| + j] == sub[j] && all[i] == sub[k];
        assert 0 <= |pairs| + j < i && all[|pairs| + j].1 == 0 && Adjacent(all[|pairs| + j].0, all[i].0);
      }
    }
  }

  /** Cells that were opened in before keep their value in after. */
  ghost predicate Settled(before: map<Point, CellValue>, after: map<Point, CellValue>)
  {
    && before.Keys == after.Keys
    && forall q :: q in before && before[q] != Unno ==> after[q] == before[q]
  }

  /** A reveal touches only UNNO cells and opens them, so it settles and shrinks UnnoOf. */
  lemma RevealSettles(layout: map<Point, bool>, before: map<Point, CellValue>, after: map<Point, CellValue>, pairs: seq<(Point, int)>)
    requires RevealedFrom(layout, before, pairs)
    requires OnlyRevealedChanged(layout, before, after, pairs)
    ensures Settled(before, after)
    ensures UnnoOf(after) == UnnoOf(before) - set q | q in Firsts(pairs)
  {
    forall i | 0 <= i < |pairs| ensures before[Firsts(pairs)[i]] == Unno {
    }
  }

  lemma FirstsAppend(a: seq<(Point, int)>, b: seq<(Point, int)>)
    ensures Firsts(a + b) == Firsts(a) + Firsts(b)
  {
  }

  /** Two reveals in a row make one: before --pairs--> mid --sub--> after. */
  lemma ChainReveals(
    layout: map<Point, bool>, before: map<Point, CellValue>, mid: map<Point, CellValue>, after: map<Point, CellValue>,
    pairs: seq<(Point, int)>, sub: seq<(Point, int)>)
    requires RevealedFrom(layout, before, pairs) && Distinct(Firsts(pairs))
    requires OnlyRevealedChanged(layout, before, mid, pairs)
    requires RevealedFrom(layout, mid, sub) && Distinct(Firsts(sub))
    requires OnlyRevealedChanged(layout, mid, after, sub)
    ensures RevealedFrom(layout, before, pairs + sub)
    ensures Distinct(Firsts(pairs + sub))
    ensures OnlyRevealedChanged(layout, before, after, pairs + sub)
  {
    FirstsAppend(pairs, sub);
    var all := pairs + sub;
    // A point revealed first shows its count in mid, so the second reveal cannot contain it.
    forall i, j | 0 <= i < |pairs| && 0 <= j < |sub| ensures pairs[i].0 != sub[j].0 {
      assert pairs[i].0 in Firsts(pairs);
      assert mid[pairs[i].0] == IntVal(MinesAround(layout, pairs[i].0));
    }
    forall j | 0 <= j < |sub| ensures before[sub[j].0] == Unno {
      assert sub[j].0 !in Firsts(pairs);
    }
    forall i, j | 0 <= i < j < |all| ensures Firsts(all)[i] != Firsts(all)[j] {
      if j < |pairs| {
        assert Firsts(pairs)[i] != Firsts(pairs)[j];
      } else if i >= |pairs| {
        assert Firsts(sub)[i - |pairs|] != Firsts(sub)[j - |pairs|];
      } else {
        assert pairs[i].0 != sub[j - |pairs|].0;
      }
    }
  }

  /** Closure facts proved about mid survive a later reveal. */
  lemma ZerosStayClosed(mid: map<Point, CellValue>, after: map<Point, CellValue>, pairs: seq<(Point, int)>)
    requires ZerosClosed(mid, pairs) && Settled(mid, after)
    ensures ZerosClosed(after, pairs)
  {
  }

  /** The state right after _open wrote count c at an unopened non-mine (x, y). */
  ghost predicate FirstRevealed(
    layout: map<Point, bool>, before: map<Point, CellValue>, after: map<Point, CellValue>, x: int, y: int, c: int)
  {
    && RevealedFrom(layout, before, [((x, y), c)])
    && OnlyRevealedChanged(layout, before, after, [((x, y), c)])
    && UnnoOf(after) < UnnoOf(before)
  }

  lemma FirstReveal(layout: map<Point, bool>, before: map<Point, CellValue>, after: map<Point, CellValue>, x: int, y: int, c: int)
    requires (x, y) in layout && !layout[(x, y)] && (x, y) in before && before[(x, y)] == Unno
    requires c == MinesAround(layout, (x, y))
    requires after == before[(x, y) := IntVal(c)]
    ensures FirstRevealed(layout, before, after, x, y, c)
  {
    var pairs := [((x, y), c)];
    assert Firsts(pairs) == [(x, y)];
    RevealSettles(layout, before, after, pairs);
    assert (x, y) in UnnoOf(before) && (x, y) !in UnnoOf(after);
  }

  /** The invariant of the neighbour loop of _open after k neighbours. */
  ghost predicate NeighborLoop(
    layout: map<Point, bool>, before: map<Point, CellValue>, cells: map<Point, CellValue>,
    x: int, y: int, pairs: seq<(Point, int)>, nbrs: seq<Point>, k: int)
  {
    && 0 <= k <= |nbrs|
    && |pairs| >= 1 && pairs[0] == ((x, y), 0)
    && RevealedFrom(layout, before, pairs)
    && Distinct(Firsts(pairs))
    && OnlyRevealedChanged(layout, before, cells, pairs)
    && ZerosClosed(cells, pairs[1..])
    && (forall j :: 0 <= j < k ==> nbrs[j] in cells && cells[nbrs[j]] != Unno)
  }

  lemma NeighborStep(
    layout: map<Point, bool>, before: map<Point, CellValue>, mid: map<Point, CellValue>, after: map<Point, CellValue>,
    x: int, y: int, pairs: seq<(Point, int)>, sub: seq<(Point, int)>, nbrs: seq<Point>, k: int)
    requires NeighborLoop(layout, before, mid, x, y, pairs, nbrs, k) && k < |nbrs|
    requires RevealedFrom(layout, mid, sub) && Distinct(Firsts(sub))
    requires OnlyRevealedChanged(layout, mid, after, sub)
    requires ZerosClosed(after, sub)
    requires nbrs[k] in after && after[nbrs[k]] != Unno
    ensures NeighborLoop(layout, before, after, x, y, pairs + sub, nbrs, k + 1)
  {
    RevealSettles(layout, mid, after, sub);
    ChainReveals(layout, before, mid, after, pairs, sub);
    ZerosClosedAfter(mid, after, pairs[1..], sub);
    TailOfAppend(pairs, sub);
    SettledKeepsOpened(mid, after, nbrs, k);
  }

  lemma TailOfAppend(a: seq<(Point, int)>, b: seq<(Point, int)>)
    requires |a| >= 1
    ensures (a + b)[1..] == a[1..] + b
  {
  }

  lemma ZerosClosedAfter(mid: map<Point, CellValue>, after: map<Point, CellValue>, done: seq<(Point, int)>, sub: seq<(Point, int)>)
    requires ZerosClosed(mid, done) && Settled(mid, after) && ZerosClosed(after, sub)
    ensures ZerosClosed(after, done + sub)
  {
    ZerosStayClosed(mid, after, done);
  }

  lemma SettledKeepsOpened(mid: map<Point, CellValue>, after: map<Point, CellValue>, nbrs: seq<Point>, k: int)
    requires 0 <= k < |nbrs| && Settled(mid, after)
    requires forall j :: 0 <= j < k ==> nbrs[j] in mid && mid[nbrs[j]] != Unno
    requires nbrs[k] in after && after[nbrs[k]] != Unno
    ensures forall j :: 0 <= j < k + 1 ==> nbrs[j] in after && after[nbrs[j]] != Unno
  {
  }

  lemma NeighborLoopDone(
    layout: map<Point, bool>, before: map<Point, CellValue>, cells: map<Point, CellValue>,
    x: int, y: int, pairs: seq<(Point, int)>, nbrs: seq<Point>)
    requires NeighborLoop(layout, before, cells, x, y, pairs, nbrs, |nbrs|)
    requires forall q :: q in cells && Adjacent((x, y), q) ==> q in nbrs
    ensures ZerosClosed(cells, pairs)
  {
  }

  /** A 3-by-3 layout whose only mine is the centre. */
  function CentreMine(): (layout: map<Point, bool>)
    ensures layout.Keys == Points(3, 3)
  {
    map p | p in Points(3, 3) :: p == (1, 1)
  }

  /**
   * On a 3-by-3 board with its only mine in the centre, every other cell
   * counts exactly 1, so _open(0, 0) reveals (0, 0) alone, with count 1.
   */
  lemma CentreMineCounts()
    ensures forall q :: q in CentreMine() && q != (1, 1) ==> MinesAround(CentreMine(), q) == 1
  {
    var layout := CentreMine();
    forall q | q in layout && q != (1, 1) ensures MinesAround(layout, q) == 1 {
      MinesAroundCountsAdjacent(layout, q);
      assert (1, 1) in AdjacentMines(layout, q);
      assert AdjacentMines(layout, q) == {(1, 1)};
    }
  }

  /** value_tos: how one cell value is printed. */
  function ValueToString(v: CellValue): (s: string)
    ensures |s| >= 1
    ensures '\n' !in s
    ensures v == IntVal(EXPLODED) ==> s == "#"
    ensures v == IntVal(MINE) ==> s == "*"
    ensures v == Unno ==> s == "?"
    ensures v == TrueVal ==> s == "True"
    ensures v.IntVal? && 0 <= v.v <= 9 ==> s == [Decimal.DigitChar(v.v)]
  {
    match v
    case TrueVal => "True"
    case IntVal(k) =>
      if k == EXPLODED then "#"
      else if k == MINE then "*"
      else if k == UNNO then "?"
      else Decimal.IntToString(k)
  }

  /** The printed row i: value_tos of cells (i, 0) .. (i, n-1), concatenated. */
  function RowText(cells: map<Point, CellValue>, i: int, n: nat): (s: string)
    requires forall j :: 0 <= j < n ==> (i, j) in cells
    ensures '\n' !in s
    ensures (forall j :: 0 <= j < n ==> |ValueToString(cells[(i, j)])| == 1) ==>
      |s| == n && forall j :: 0 <= j < n ==> s[j] == ValueToString(cells[(i, j)])[0]
  {
    if n == 0 then "" else RowText(cells, i, n - 1) + ValueToString(cells[(i, n - 1)])
  }

  /** The printed rows 0 .. k-1. */
  function Rows(cells: map<Point, CellValue>, k: nat, n: nat): (rows: seq<string>)
    requires forall i, j :: 0 <= i < k && 0 <= j < n ==> (i, j) in cells
    ensures |rows| == k
    ensures forall i :: 0 <= i < k ==> rows[i] == RowText(cells, i, n)
  {
    if k == 0 then [] else Rows(cells, k - 1, n) + [RowText(cells, k - 1, n)]
  }

  class Minesweeper {
    const m: int
    const n: int
    const grid: Board<CellValue>
    const mines: Board<bool>
    var exploded: bool

    ghost predicate Valid()
      reads this, grid, mines
    {
      && grid.m == m && grid.n == n && grid.Valid()
      && mines.m == m && mines.n == n && mines.Valid()
    }

    /**
     * Minesweeper(m, n, minecount=len(positions)) with the mines at the given
     * positions; random.sample would have chosen them distinct and on the board.
     */
    constructor (m: int, n: int, positions: seq<Point>)
      requires forall i :: 0 <= i < |positions| ==> InBounds(m, n, positions[i])
      requires Distinct(positions)
      ensures Valid() && this.m == m && this.n == n
      ensures fresh(grid) && fresh(mines)
      ensures forall q :: q in grid.cells ==> grid.cells[q] == Unno
      ensures forall q :: q in mines.cells ==> (mines.cells[q] <==> q in positions)
      ensures !exploded
    {
      this.m := m;
      this.n := n;
      grid := new Board<CellValue>(m, n, Call(_ => Unno));
      mines := new Board<bool>(m, n, Call(_ => false));
      exploded := false;
      new;
      var k := 0;
      while k < |positions|
        invariant 0 <= k <= |positions|
        invariant mines.Valid() && mines.m == m && mines.n == n
        invariant forall q :: q in mines.cells ==> (mines.cells[q] <==> q in positions[..k])
        modifies mines
      {
        var _ := mines.Set(positions[k], true);
        k := k + 1;
      }
      assert positions[..k] == positions;
    }

    /** neighbor_xys, delegated to the visible grid. */
    function NeighborXys(x: int, y: int): (r: seq<Point>)
      reads this, grid, mines
      requires Valid()
      ensures r == grid.NeighborXys(x, y)
      ensures forall q :: q in r <==> InBounds(m, n, q) && Adjacent((x, y), q)
    {
      NeighborsIn(grid.cells.Keys, x, y)
    }

    /** _minecount(x, y). */
    function MineCount(p: Point): (c: nat)
      reads this, grid, mines
      requires Valid()
      ensures c <= 8
    {
      MinesAround(mines.cells, p)
    }

    /** _minecount(p) is the number of mines on the board adjacent to p, never p itself. */
    lemma MineCountIsAdjacentMines(p: Point)
      requires Valid()
      ensures MineCount(p) == |set q | q in Points(m, n) && Adjacent(p, q) && mines.cells[q]|
      ensures MineCount(p) == |AdjacentMines(mines.cells, p)| && p !in AdjacentMines(mines.cells, p)
    {
      MinesAroundCountsAdjacent(mines.cells, p);
      assert AdjacentMines(mines.cells, p) == set q | q in Points(m, n) && Adjacent(p, q) && mines.cells[q];
    }

    /**
     * _open(x, y): on a mine or on a cell that is not UNNO it returns [] and
     * changes nothing; otherwise it writes the cell's mine count and, when
     * that count is 0, opens every neighbour in turn (OpenNeighbors). The
     * recursion ends because each call that writes removes one cell from the
     * UNNO cells. _open is only reached with an on-board point: open() looks
     * the point up in the mine board first, which raises KeyError otherwise.
     */
    method OpenCells(x: int, y: int) returns (pairs: seq<(Point, int)>)
      requires Valid() && InBounds(m, n, (x, y))
      modifies grid
      decreases UnnoOf(grid.cells), 1
      ensures Valid()
      ensures RevealedFrom(mines.cells, old(grid.cells), pairs)
      ensures Distinct(Firsts(pairs))
      ensures OnlyRevealedChanged(mines.cells, old(grid.cells), grid.cells, pairs)
      ensures ZerosClosed(grid.cells, pairs)
      ensures ReachedThroughZeros(pairs)
      ensures mines.cells[(x, y)] || old(grid.cells[(x, y)]) != Unno ==> pairs == []
      ensures !mines.cells[(x, y)] && old(grid.cells[(x, y)]) == Unno ==>
        |pairs| >= 1 && pairs[0] == ((x, y), MineCount((x, y)))
      ensures !mines.cells[(x, y)] && old(grid.cells[(x, y)]) == Unno && MineCount((x, y)) > 0 ==>
        pairs == [((x, y), MineCount((x, y)))]
      ensures !mines.cells[(x, y)] ==> grid.cells[(x, y)] != Unno
    {
      ghost var layout := mines.cells;
      ghost var before := grid.cells;
      if mines.cells[(x, y)] || grid.cells[(x, y)] != Unno {
        return [];
      }
      var c := MineCount((x, y));
      var _ := grid.Set((x, y), IntVal(c));
      pairs := [((x, y), c)];
      FirstReveal(layout, before, grid.cells, x, y, c);
      if c > 0 {
        return;
      }
      pairs := OpenNeighbors(x, y, before, UnnoOf(before));
    }

    /**
     * The loop of _open over neighbor_xys(x, y) once (x, y) showed 0: it
     * extends [((x, y), 0)] with what opening each neighbour reveals.
     */
    method OpenNeighbors(x: int, y: int, ghost before: map<Point, CellValue>, ghost bound: set<Point>)
      returns (pairs: seq<(Point, int)>)
      requires Valid() && InBounds(m, n, (x, y))
      requires UnnoOf(grid.cells) < bound
      requires FirstRevealed(mines.cells, before, grid.cells, x, y, 0)
      modifies grid
      decreases bound, 0
      ensures Valid()
      ensures RevealedFrom(mines.cells, before, pairs)
      ensures Distinct(Firsts(pairs))
      ensures OnlyRevealedChanged(mines.cells, before, grid.cells, pairs)
      ensures ZerosClosed(grid.cells, pairs)
      ensures ReachedThroughZeros(pairs)
      ensures |pairs| >= 1 && pairs[0] == ((x, y), 0)
    {
      ghost var layout := mines.cells;
      pairs := [((x, y), 0)];
      var nbrs := NeighborXys(x, y);
      var k := 0;
      while k < |nbrs|
        invariant 0 <= k <= |nbrs|
        invariant Valid() && mines.cells == layout
        invariant UnnoOf(grid.cells) < bound
        invariant NeighborLoop(layout, before, grid.cells, x, y, pairs, nbrs, k)
        invariant ReachedThroughZeros(pairs)
      {
        var q := nbrs[k];
        ghost var mid := grid.cells;
        var sub := OpenCells(q.0, q.1);
        NeighborStep(layout, before, mid, grid.cells, x, y, pairs, sub, nbrs, k);
        ReachedAppend(pairs, sub, q);
        pairs := pairs + sub;
        k := k + 1;
      }
      NeighborLoopDone(layout, before, grid.cells, x, y, pairs, nbrs);
    }

    /**
     * _explode(x, y): every mine becomes True, every other cell its mine
     * count, then the target EXPLODED; the ValueError it raises is returned.
     */
    method Explode(x: int, y: int) returns (err: OpenError)
      requires Valid() && InBounds(m, n, (x, y))
      modifies grid
      ensures Valid()
      ensures forall q :: q in grid.cells ==> grid.cells[q] == ExplodedValue(mines.cells, (x, y), q)
      ensures err == ExplodedAt((x, y))
    {
      ghost var before := grid.cells;
      var i := 0;
      while i < m
        invariant 0 <= i <= m
        invariant Valid()
        invariant RewrittenUpTo(mines.cells, before, grid.cells, i, 0)
      {
        RewriteRow(i, before);
        i := i + 1;
      }
      forall q | q in grid.cells ensures q.0 < m {
        assert q in Points(m, n);
      }
      assert (x, y) in Points(m, n);
      ghost var rewritten := grid.cells;
      var _ := grid.Set((x, y), IntVal(EXPLODED));
      AllRewritten(mines.cells, before, rewritten, (x, y), m);
      err := ExplodedAt((x, y));
    }

    /** One pass of _explode's inner loop: row i is rewritten, left to right. */
    method RewriteRow(i: int, ghost before: map<Point, CellValue>)
      requires Valid() && 0 <= i < m
      requires RewrittenUpTo(mines.cells, before, grid.cells, i, 0)
      modifies grid
      ensures Valid()
      ensures RewrittenUpTo(mines.cells, before, grid.cells, i + 1, 0)
    {
      var j := 0;
      while j < n
        invariant 0 <= j <= if n < 0 then 0 else n
        invariant Valid()
        invariant RewrittenUpTo(mines.cells, before, grid.cells, i, j)
      {
        var v := if mines.cells[(i, j)] then TrueVal else IntVal(MineCount((i, j)));
        ghost var prev := grid.cells;
        assert (i, j) in Points(m, n);
        var _ := grid.Set((i, j), v);
        RewriteStep(mines.cells, before, prev, i, j, v);
        j := j + 1;
      }
      forall q | q in grid.cells ensures 0 <= q.1 < n {
        assert q in Points(m, n);
      }
      RowRewritten(mines.cells, before, grid.cells, i, j);
    }

    /**
     * open(x, y). The guard on exploded is kept, but no method sets the
     * flag, so from a constructed board it never fires.
     */
    method Open(x: int, y: int) returns (r: Result<seq<(Point, int)>, OpenError>)
      requires Valid()
      modifies grid
      ensures Valid() && exploded == old(exploded)
      ensures old(exploded) ==> r == Err(AlreadyExploded) && grid.cells == old(grid.cells)
      ensures !old(exploded) && !InBounds(m, n, (x, y)) ==>
        r == Err(OpenError.KeyError((x, y))) && grid.cells == old(grid.cells)
      ensures !old(exploded) && InBounds(m, n, (x, y)) && mines.cells[(x, y)] ==>
        && r == Err(ExplodedAt((x, y)))
        && forall q :: q in grid.cells ==> grid.cells[q] == ExplodedValue(mines.cells, (x, y), q)
      ensures !old(exploded) && InBounds(m, n, (x, y)) && !mines.cells[(x, y)] ==>
        && r.Ok?
        && RevealedFrom(mines.cells, old(grid.cells), r.value)
        && Distinct(Firsts(r.value))
        && OnlyRevealedChanged(mines.cells, old(grid.cells), grid.cells, r.value)
        && ZerosClosed(grid.cells, r.value)
        && ReachedThroughZeros(r.value)
        && (old(grid.cells[(x, y)]) != Unno ==> r.value == [])
        && (old(grid.cells[(x, y)]) == Unno ==> |r.value| >= 1 && r.value[0].0 == (x, y))
    {
      if exploded {
        return Err(AlreadyExploded);
      }
      var isMine := mines.Get((x, y));
      if isMine.Err? {
        return Err(OpenError.KeyError((x, y)));
      }
      if isMine.value {
        var e := Explode(x, y);
        return Err(e);
      }
      var pairs := OpenCells(x, y);
      r := Ok(pairs);
    }

    /**
     * __str__: the rows of value_tos, joined by newlines. An empty board
     * prints as ""; otherwise splitting the text at newlines gives back
     * its m rows.
     */
    function Render(): (s: string)
      reads this, grid, mines
      requires Valid()
      ensures m <= 0 ==> s == ""
      ensures m >= 1 ==> Text.Split(s, '\n') == Rows(grid.cells, m, if n < 0 then 0 else n)
    {
      if m <= 0 then ""
      else
        var rows := Rows(grid.cells, m, if n < 0 then 0 else n);
        Text.SplitJoin(rows, '\n');
        Text.Join(rows, '\n')
    }
  }
}
