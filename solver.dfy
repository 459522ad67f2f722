/**
 * MineSolver (minesweeper.py): the solver's ledger of the cells it knows,
 * with their counts, the cells it has flagged as mines and the cells it
 * still does not know; the part of play that opens a cell and records what
 * the board revealed; and the neighbour queries.
 */
module Solver {
  import opened Wrappers
  import opened Grid
  import opened Engine

  datatype SolverError =
    | KeyError(key: Point)          // set.remove of a point that is not unknown
    | StopIteration                 // next(iter(...)) over no unknowns
    | UnexpectedValueChange         // open revealed a point the solver already knew
    | OpenFailed(cause: OpenError)  // Minesweeper.open raised

  /** The solver's three collections at one moment. */
  datatype Ledger = Ledger(known: map<Point, int>, flagged: map<Point, bool>, unknowns: set<Point>)

  /** Every point of the board is in exactly one of known, flagged and unknowns. */
  predicate Partitions(l: Ledger, points: set<Point>)
  {
    && l.known.Keys !! l.unknowns
    && l.flagged.Keys !! l.unknowns
    && l.known.Keys !! l.flagged.Keys
    && l.known.Keys + l.flagged.Keys + l.unknowns == points
  }

  /**
   * The ledger tells the truth about a board with mine layout layout that
   * shows cells: known points are safe, their recorded count is their mine
   * count and is what the board shows; flagged points are mines; unknown
   * points are still unopened.
   */
  ghost predicate Agrees(l: Ledger, layout: map<Point, bool>, cells: map<Point, CellValue>)
  {
    && Partitions(l, layout.Keys)
    && cells.Keys == layout.Keys
    && (forall p :: p in l.known ==>
          !layout[p] && l.known[p] == MinesAround(layout, p) && cells[p] == IntVal(l.known[p]))
    && (forall p :: p in l.flagged ==> layout[p])
    && (forall p :: p in l.unknowns ==> cells[p] == Unno)
  }

  /** add_known: known[p] is written first, then p leaves unknowns (KeyError if absent). */
  function RecordKnown(l: Ledger, p: Point, v: int): (Ledger, Outcome<SolverError>)
  {
    (Ledger(l.known[p := v], l.flagged, l.unknowns - {p}),
     if p in l.unknowns then Pass else Fail(SolverError.KeyError(p)))
  }

  /** add_mine: mines[p] is set first, then p leaves unknowns (KeyError if absent). */
  function RecordMine(l: Ledger, p: Point): (Ledger, Outcome<SolverError>)
  {
    (Ledger(l.known, l.flagged[p := true], l.unknowns - {p}),
     if p in l.unknowns then Pass else Fail(SolverError.KeyError(p)))
  }

  /**
   * add_known keeps the partition exactly when it succeeds or re-records a
   * point that was already known; a failure on a flagged or off-board
   * point leaves that point in two places or outside the board.
   */
  lemma RecordKnownPartitions(l: Ledger, points: set<Point>, p: Point, v: int)
    requires Partitions(l, points)
    ensures Partitions(RecordKnown(l, p, v).0, points) <==> RecordKnown(l, p, v).1.Pass? || p in l.known
  {
    var l' := RecordKnown(l, p, v).0;
    if p !in l.unknowns && p !in l.known {
      if p in l.flagged {
        assert p in l'.known.Keys * l'.flagged.Keys;
      } else {
        assert p in l'.known.Keys && p !in points;
      }
    }
  }

  /** The same for add_mine, with flagged in the place of known. */
  lemma RecordMinePartitions(l: Ledger, points: set<Point>, p: Point)
    requires Partitions(l, points)
    ensures Partitions(RecordMine(l, p).0, points) <==> RecordMine(l, p).1.Pass? || p in l.flagged
  {
    var l' := RecordMine(l, p).0;
    if p !in l.unknowns && p !in l.flagged {
      if p in l.known {
        assert p in l'.known.Keys * l'.flagged.Keys;
      } else {
        assert p in l'.flagged.Keys && p !in points;
      }
    }
  }

  /**
   * The loop of play over the (point, count) pairs open returned: a point
   * already known raises, any other is handed to add_known. The result is
   * the ledger the loop leaves and how the loop ended.
   */
  function Absorbed(l: Ledger, pairs: seq<(Point, int)>): (r: (Ledger, Outcome<SolverError>))
    ensures r.0.flagged == l.flagged
    ensures r.0.unknowns <= l.unknowns
    ensures forall p :: p in l.known ==> p in r.0.known && r.0.known[p] == l.known[p]
    ensures r.1.Fail? ==> r.1.error == UnexpectedValueChange || r.1.error.KeyError?
    decreases |pairs|
  {
    if pairs == [] then (l, Pass)
    else if pairs[0].0 in l.known then (l, Fail(UnexpectedValueChange))
    else
      var (l', outcome) := RecordKnown(l, pairs[0].0, pairs[0].1);
      if outcome.Fail? then (l', outcome) else Absorbed(l', pairs[1..])
  }

  /** The points of the pairs, as a set. */
  function PointsOf(pairs: seq<(Point, int)>): (s: set<Point>)
    ensures forall q :: q in s <==> exists i :: 0 <= i < |pairs| && pairs[i].0 == q
  {
    set i | 0 <= i < |pairs| :: pairs[i].0
  }

  lemma PointsOfFirsts(pairs: seq<(Point, int)>)
    ensures PointsOf(pairs) == set q | q in Firsts(pairs)
  {
    forall q | q in PointsOf(pairs) ensures q in Firsts(pairs) {
      var i :| 0 <= i < |pairs| && pairs[i].0 == q;
      assert Firsts(pairs)[i] == q;
    }
  }

  /**
   * Pairs whose points are distinct, unknown and not known are all
   * recorded: the loop ends normally, they move from unknowns to known,
   * each with its count.
   */
  lemma {:induction false} AbsorbFresh(l: Ledger, pairs: seq<(Point, int)>)
    requires Distinct(Firsts(pairs))
    requires forall i :: 0 <= i < |pairs| ==> pairs[i].0 in l.unknowns && pairs[i].0 !in l.known
    ensures Absorbed(l, pairs).1 == Pass
    ensures Absorbed(l, pairs).0.unknowns == l.unknowns - PointsOf(pairs)
    ensures Absorbed(l, pairs).0.known.Keys == l.known.Keys + PointsOf(pairs)
    ensures forall i :: 0 <= i < |pairs| ==> Absorbed(l, pairs).0.known[pairs[i].0] == pairs[i].1
    decreases |pairs|
  {
    if pairs != [] {
      var p := pairs[0].0;
      var l' := RecordKnown(l, p, pairs[0].1).0;
      var rest := pairs[1..];
      forall i | 0 <= i < |rest| ensures rest[i].0 in l'.unknowns && rest[i].0 !in l'.known {
        assert Firsts(pairs)[0] != Firsts(pairs)[i + 1];
      }
      forall i, j | 0 <= i < j < |rest| ensures Firsts(rest)[i] != Firsts(rest)[j] {
        assert Firsts(pairs)[i + 1] != Firsts(pairs)[j + 1];
      }
      AbsorbFresh(l', rest);
      assert PointsOf(pairs) == {p} + PointsOf(rest) by {
        forall q | q in PointsOf(pairs) ensures q == p || q in PointsOf(rest) {
          var i :| 0 <= i < |pairs| && pairs[i].0 == q;
          if i > 0 {
            assert rest[i - 1].0 == q;
          }
        }
        forall q | q in PointsOf(rest) ensures q in PointsOf(pairs) {
          var i :| 0 <= i < |rest| && rest[i].0 == q;
          assert pairs[i + 1].0 == q;
        }
      }
      forall i | 0 <= i < |pairs| ensures Absorbed(l, pairs).0.known[pairs[i].0] == pairs[i].1 {
        if i > 0 {
          assert pairs[i] == rest[i - 1];
        }
      }
    }
  }

  /** On an agreeing ledger, a safe point that is not known is unknown, and still unopened. */
  lemma UnknownIsUnopened(l: Ledger, layout: map<Point, bool>, cells: map<Point, CellValue>, p: Point)
    requires Agrees(l, layout, cells)
    requires p in layout && !layout[p] && p !in l.known
    ensures p in l.unknowns && cells[p] == Unno
  {
    assert p !in l.flagged;
  }

  /**
   * Recording what open revealed on an agreeing ledger never clashes and
   * keeps it agreeing; the opened point, if safe, ends up known.
   */
  lemma RecordOpened(
    l: Ledger, layout: map<Point, bool>, before: map<Point, CellValue>, after: map<Point, CellValue>,
    pairs: seq<(Point, int)>, p: Point)
    requires Agrees(l, layout, before)
    requires RevealedFrom(layout, before, pairs) && Distinct(Firsts(pairs))
    requires OnlyRevealedChanged(layout, before, after, pairs)
    requires p in layout && !layout[p] && before[p] == Unno ==> |pairs| >= 1 && pairs[0].0 == p
    ensures Absorbed(l, pairs).1 == Pass && Agrees(Absorbed(l, pairs).0, layout, after)
    ensures p in layout && !layout[p] && p !in l.known ==> p in Absorbed(l, pairs).0.known
  {
    AbsorbReveal(l, layout, before, after, pairs);
    if p in layout && !layout[p] && p !in l.known {
      UnknownIsUnopened(l, layout, before, p);
      assert p in PointsOf(pairs);
    }
  }

  /** A point open reveals was unopened and safe, so an agreeing ledger has it as unknown. */
  lemma RevealedAreUnknown(
    l: Ledger, layout: map<Point, bool>, before: map<Point, CellValue>, pairs: seq<(Point, int)>)
    requires Agrees(l, layout, before)
    requires RevealedFrom(layout, before, pairs)
    ensures forall i :: 0 <= i < |pairs| ==> pairs[i].0 in l.unknowns && pairs[i].0 !in l.known
  {
    // A known point shows its count, at most 8, so it is not UNNO.
    forall q | q in l.known ensures before[q] != Unno {
      assert l.known[q] == MinesAround(layout, q);
    }
  }

  /** After the reveal, every point of the new ledger's known is safe, counted and shown. */
  lemma KnownAfterReveal(
    l: Ledger, l': Ledger, layout: map<Point, bool>, before: map<Point, CellValue>, after: map<Point, CellValue>,
    pairs: seq<(Point, int)>)
    requires Agrees(l, layout, before)
    requires RevealedFrom(layout, before, pairs)
    requires OnlyRevealedChanged(layout, before, after, pairs)
    requires l'.known.Keys == l.known.Keys + PointsOf(pairs)
    requires forall p :: p in l.known ==> l'.known[p] == l.known[p]
    requires forall i :: 0 <= i < |pairs| ==> l'.known[pairs[i].0] == pairs[i].1
    ensures forall p :: p in l'.known ==>
      !layout[p] && l'.known[p] == MinesAround(layout, p) && after[p] == IntVal(l'.known[p])
  {
    forall p | p in l'.known
      ensures !layout[p] && l'.known[p] == MinesAround(layout, p) && after[p] == IntVal(l'.known[p])
    {
      if p in PointsOf(pairs) {
        var i :| 0 <= i < |pairs| && pairs[i].0 == p;
        assert Firsts(pairs)[i] == p;
        assert after[p] == IntVal(MinesAround(layout, p));
        assert l'.known[p] == pairs[i].1;
      } else {
        assert p in l.known && l'.known[p] == l.known[p];
        assert before[p] == IntVal(l.known[p]);
        forall i | 0 <= i < |pairs| ensures Firsts(pairs)[i] != p {
          assert before[pairs[i].0] == Unno;
        }
        assert after[p] == before[p];
      }
    }
  }

  /** The ledger AbsorbFresh describes agrees with the board after the reveal. */
  lemma AgreesAfterReveal(
    l: Ledger, l': Ledger, layout: map<Point, bool>, before: map<Point, CellValue>, after: map<Point, CellValue>,
    pairs: seq<(Point, int)>)
    requires Agrees(l, layout, before)
    requires RevealedFrom(layout, before, pairs)
    requires OnlyRevealedChanged(layout, before, after, pairs)
    requires PointsOf(pairs) <= l.unknowns
    requires l'.flagged == l.flagged
    requires l'.unknowns == l.unknowns - PointsOf(pairs)
    requires l'.known.Keys == l.known.Keys + PointsOf(pairs)
    requires forall p :: p in l.known ==> l'.known[p] == l.known[p]
    requires forall i :: 0 <= i < |pairs| ==> l'.known[pairs[i].0] == pairs[i].1
    ensures Agrees(l', layout, after)
  {
    assert Partitions(l', layout.Keys);
    KnownAfterReveal(l, l', layout, before, after, pairs);
    assert forall p :: p in l'.unknowns ==> after[p] == Unno by {
      PointsOfFirsts(pairs);
      forall p | p in l'.unknowns ensures after[p] == Unno {
        assert p !in Firsts(pairs);
      }
    }
  }

  /**
   * What open reveals on a board the ledger agrees with is recorded without
   * a clash, and the ledger then agrees with the board open left behind.
   */
  lemma AbsorbReveal(
    l: Ledger, layout: map<Point, bool>, before: map<Point, CellValue>, after: map<Point, CellValue>,
    pairs: seq<(Point, int)>)
    requires Agrees(l, layout, before)
    requires RevealedFrom(layout, before, pairs) && Distinct(Firsts(pairs))
    requires OnlyRevealedChanged(layout, before, after, pairs)
    ensures Absorbed(l, pairs).1 == Pass
    ensures Agrees(Absorbed(l, pairs).0, layout, after)
    ensures Absorbed(l, pairs).0.unknowns == l.unknowns - PointsOf(pairs)
    ensures Absorbed(l, pairs).0.known.Keys == l.known.Keys + PointsOf(pairs)
  {
    RevealedAreUnknown(l, layout, before, pairs);
    AbsorbFresh(l, pairs);
    AgreesAfterReveal(l, Absorbed(l, pairs).0, layout, before, after, pairs);
  }

  /** The list of points among ps that are not in keys, in order. */
  function DropIn(ps: seq<Point>, keys: set<Point>): (r: seq<Point>)
    ensures |r| <= |ps|
    ensures forall q :: q in r <==> q in ps && q !in keys
    ensures StrictlyOrdered(ps) ==> StrictlyOrdered(r)
  {
    if ps == [] then []
    else if ps[0] in keys then DropIn(ps[1..], keys)
    else
      var rest := DropIn(ps[1..], keys);
      assert StrictlyOrdered(ps) ==> forall k :: 0 <= k < |rest| ==> Before(ps[0], rest[k]) by {
        if StrictlyOrdered(ps) {
          forall k | 0 <= k < |rest| ensures Before(ps[0], rest[k]) {
            assert rest[k] in ps[1..];
            var i :| 0 <= i < |ps[1..]| && ps[1..][i] == rest[k];
            assert ps[i + 1] == rest[k];
          }
        }
      }
      [ps[0]] + rest
  }

  /** Keeping and dropping the points in keys splits a list between them. */
  lemma {:induction false} KeepDropLengths(ps: seq<Point>, keys: set<Point>)
    ensures |KeepIn(ps, keys)| + |DropIn(ps, keys)| == |ps|
  {
    if ps != [] {
      KeepDropLengths(ps[1..], keys);
    }
  }

  class MineSolver {
    const game: Minesweeper
    const m: int
    const n: int
    var known: map<Point, int>
    var mines: map<Point, bool>
    var unknowns: set<Point>

    ghost predicate Valid()
      reads this, game, game.grid, game.mines
    {
      game.Valid() && m == game.m && n == game.n && !game.exploded
    }

    function Snapshot(): Ledger
      reads this
    {
      Ledger(known, mines, unknowns)
    }

    /** The ledger agrees with the game's board. */
    ghost predicate Consistent()
      reads this, game, game.grid, game.mines
    {
      Valid() && Agrees(Snapshot(), game.mines.cells, game.grid.cells)
    }

    /** MineSolver(minesweeper): nothing known or flagged, every point unknown. */
    constructor (game: Minesweeper)
      requires game.Valid() && !game.exploded
      ensures Valid() && this.game == game
      ensures known == map[] && mines == map[] && unknowns == Points(game.m, game.n)
      ensures Partitions(Snapshot(), Points(m, n))
      ensures (forall q :: q in game.grid.cells ==> game.grid.cells[q] == Unno) ==> Consistent()
    {
      this.game := game;
      m := game.m;
      n := game.n;
      known := map[];
      mines := map[];
      unknowns := Points(game.m, game.n);
    }

    method AddKnown(x: int, y: int, val: int) returns (r: Outcome<SolverError>)
      modifies this
      ensures (Snapshot(), r) == RecordKnown(old(Snapshot()), (x, y), val)
    {
      known := known[(x, y) := val];
      if (x, y) !in unknowns {
        assert unknowns - {(x, y)} == unknowns;
        return Fail(SolverError.KeyError((x, y)));
      }
      unknowns := unknowns - {(x, y)};
      r := Pass;
    }

    method AddMine(x: int, y: int) returns (r: Outcome<SolverError>)
      modifies this
      ensures (Snapshot(), r) == RecordMine(old(Snapshot()), (x, y))
    {
      mines := mines[(x, y) := true];
      if (x, y) !in unknowns {
        assert unknowns - {(x, y)} == unknowns;
        return Fail(SolverError.KeyError((x, y)));
      }
      unknowns := unknowns - {(x, y)};
      r := Pass;
    }

    /** The for loop of play: every revealed pair goes to add_known, unless it is already known. */
    method RecordRevealed(pairs: seq<(Point, int)>) returns (r: Outcome<SolverError>)
      modifies this
      ensures (Snapshot(), r) == Absorbed(old(Snapshot()), pairs)
    {
      var i := 0;
      while i < |pairs|
        invariant 0 <= i <= |pairs|
        invariant Absorbed(Snapshot(), pairs[i..]) == Absorbed(old(Snapshot()), pairs)
      {
        assert pairs[i..][1..] == pairs[i + 1..];
        var (p, c) := pairs[i];
        if p in known {
          return Fail(UnexpectedValueChange);
        }
        r := AddKnown(p.0, p.1, c);
        if r.Fail? {
          return;
        }
        i := i + 1;
      }
      r := Pass;
    }

    /**
     * The body of play once a point p is chosen: open it, then record what
     * it revealed. revealed is what open returned.
     */
    method OpenAndRecord(p: Point) returns (r: Outcome<SolverError>, ghost revealed: seq<(Point, int)>)
      requires Valid()
      modifies this, game.grid
      ensures Valid()
      ensures r.Fail? && r.error.OpenFailed? ==> Snapshot() == old(Snapshot())
      ensures InBounds(m, n, p) ==> (r == Fail(OpenFailed(ExplodedAt(p))) <==> game.mines.cells[p])
      ensures !(r.Fail? && r.error.OpenFailed?) ==>
        && (Snapshot(), r) == Absorbed(old(Snapshot()), revealed)
        && RevealedFrom(game.mines.cells, old(game.grid.cells), revealed)
        && OnlyRevealedChanged(game.mines.cells, old(game.grid.cells), game.grid.cells, revealed)
      ensures old(Consistent()) ==> r.Pass? || r.error.OpenFailed?
      ensures old(Consistent()) && r.Pass? ==> Consistent()
      ensures old(Consistent()) && InBounds(m, n, p) && !game.mines.cells[p] && p !in old(known) ==> p in known
    {
      ghost var before := game.grid.cells;
      ghost var ledger := Snapshot();
      ghost var consistent := Consistent();
      revealed := [];
      var result := game.Open(p.0, p.1);
      if result.Err? {
        return Fail(OpenFailed(result.error)), [];
      }
      var pairs := result.value;
      revealed := pairs;
      ghost var layout, after := game.mines.cells, game.grid.cells;
      r := RecordRevealed(pairs);
      if consistent {
        assert p in layout && !layout[p] && before[p] == Unno ==> |pairs| >= 1 && pairs[0].0 == p;
        RecordOpened(ledger, layout, before, after, pairs, p);
      }
    }

    /**
     * play(x, y) up to the hand-over to z3: with no target an arbitrary
     * unknown point is chosen (StopIteration if there is none); a known
     * target returns at once; otherwise the point is opened and what it
     * revealed is recorded. chosen is the point handed to open, if any;
     * revealed is what open returned.
     */
    method Play(target: Option<Point>)
      returns (r: Outcome<SolverError>, ghost chosen: Option<Point>, ghost revealed: seq<(Point, int)>)
      requires Valid()
      modifies this, game.grid
      ensures Valid()
      ensures chosen.None? <==>
        (target.None? && old(unknowns) == {}) || (target.Some? && target.value in old(known))
      ensures chosen.None? ==>
        && r == (if target.None? then Fail(SolverError.StopIteration) else Pass)
        && Snapshot() == old(Snapshot()) && game.grid.cells == old(game.grid.cells)
      ensures chosen.Some? && target.Some? ==> chosen.value == target.value
      ensures chosen.Some? && target.None? ==> chosen.value in old(unknowns)
      ensures chosen.Some? && r.Fail? && r.error.OpenFailed? ==> Snapshot() == old(Snapshot())
      ensures chosen.Some? && !(r.Fail? && r.error.OpenFailed?) ==>
        && (Snapshot(), r) == Absorbed(old(Snapshot()), revealed)
        && RevealedFrom(game.mines.cells, old(game.grid.cells), revealed)
        && OnlyRevealedChanged(game.mines.cells, old(game.grid.cells), game.grid.cells, revealed)
      // On a ledger that agrees with the board, play never clashes with it.
      ensures old(Consistent()) ==> r.Pass? || r == Fail(SolverError.StopIteration) || r.error.OpenFailed?
      ensures old(Consistent()) && r.Pass? ==> Consistent()
      ensures old(Consistent()) && chosen.Some? && InBounds(m, n, chosen.value) ==>
        if game.mines.cells[chosen.value] then r == Fail(OpenFailed(ExplodedAt(chosen.value)))
        else r.Pass? && chosen.value in known
    {
      var p: Point;
      if target.None? {
        if unknowns == {} {
          return Fail(SolverError.StopIteration), None, [];
        }
        p :| p in unknowns;
        assert Consistent() ==> p !in known;
      } else {
        p := target.value;
        if p in known {
          return Pass, None, [];
        }
      }
      chosen := Some(p);
      r, revealed := OpenAndRecord(p);
    }

    /** u_neighbors: the neighbours of (x, y) that are still unknown, in neighbor_xys order. */
    function UnknownNeighbors(x: int, y: int): (r: seq<Point>)
      reads this, game, game.grid, game.mines
      requires Valid()
      ensures forall q :: q in r <==> InBounds(m, n, q) && Adjacent((x, y), q) && q in unknowns
    {
      KeepIn(game.NeighborXys(x, y), unknowns)
    }

    /** k_neighbors: the neighbours of (x, y) that are not unknown, in neighbor_xys order. */
    function KnownNeighbors(x: int, y: int): (r: seq<Point>)
      reads this, game, game.grid, game.mines
      requires Valid()
      ensures forall q :: q in r <==> InBounds(m, n, q) && Adjacent((x, y), q) && q !in unknowns
    {
      DropIn(game.NeighborXys(x, y), unknowns)
    }

    /**
     * Every neighbour is listed by exactly one of u_neighbors and
     * k_neighbors, and both keep the row-major order of neighbor_xys.
     */
    lemma NeighborsSplit(x: int, y: int)
      requires Valid()
      ensures |UnknownNeighbors(x, y)| + |KnownNeighbors(x, y)| == |game.NeighborXys(x, y)|
      ensures StrictlyOrdered(UnknownNeighbors(x, y)) && StrictlyOrdered(KnownNeighbors(x, y))
    {
      KeepDropLengths(game.NeighborXys(x, y), unknowns);
    }
  }
}
