/**
 * The generic board of minesweeper.py (class Board): a grid keyed by
 * (row, column) points that are fixed when it is built, with bounded
 * get and set, a row-major fill from a supplier and the clipped
 * 8-neighbourhood.
 */
module Grid {
  import opened Wrappers

  type Point = (int, int)

  /** The keys of an m-by-n board: [0,m) x [0,n). Empty when m or n is not positive. */
  function Points(m: int, n: int): set<Point>
  {
    set i, j | 0 <= i < m && 0 <= j < n :: (i, j)
  }

  predicate InBounds(m: int, n: int, p: Point)
  {
    0 <= p.0 < m && 0 <= p.1 < n
  }

  /** Row-major (lexicographic) order on points. */
  predicate Before(p: Point, q: Point)
  {
    p.0 < q.0 || (p.0 == q.0 && p.1 < q.1)
  }

  predicate StrictlyOrdered(ps: seq<Point>)
  {
    forall i, j :: 0 <= i < j < |ps| ==> Before(ps[i], ps[j])
  }

  /** q is one of the eight points around p. */
  predicate Adjacent(p: Point, q: Point)
  {
    q != p && -1 <= q.0 - p.0 <= 1 && -1 <= q.1 - p.1 <= 1
  }

  /**
   * The points at offsets (xi, yj) for xi, yj in (-1, 0, +1), (xi, yj) != (0, 0),
   * in the order the comprehension of neighbor_xys visits them.
   */
  function Candidates(x: int, y: int): seq<Point>
  {
    [(x - 1, y - 1), (x - 1, y), (x - 1, y + 1),
     (x, y - 1),                 (x, y + 1),
     (x + 1, y - 1), (x + 1, y), (x + 1, y + 1)]
  }

  /** The elements of ps that are keys, in their order in ps. */
  function KeepIn(ps: seq<Point>, keys: set<Point>): (r: seq<Point>)
    ensures |r| <= |ps|
    ensures forall q :: q in r <==> q in ps && q in keys
    ensures StrictlyOrdered(ps) ==> StrictlyOrdered(r)
  {
    if ps == [] then []
    else if ps[0] in keys then
      var rest := KeepIn(ps[1..], keys);
      assert StrictlyOrdered(ps) ==> forall k :: 0 <= k < |rest| ==> Before(ps[0], rest[k]) by {
        if StrictlyOrdered(ps) {
          forall k | 0 <= k < |rest| ensures Before(ps[0], rest[k]) {
            assert rest[k] in ps[1..];
            var i :| 0 <= i < |ps[1..]| && ps[1..][i] == rest[k];
            assert ps[i + 1] == rest[k];
          }
        }
      }
      [ps[0]] + rest
    else KeepIn(ps[1..], keys)
  }

  /** Board.neighbor_xys over the key set keys. */
  function NeighborsIn(keys: set<Point>, x: int, y: int): (r: seq<Point>)
    ensures |r| <= 8
    ensures forall q :: q in r <==> q in keys && Adjacent((x, y), q)
    ensures (x, y) !in r
    ensures StrictlyOrdered(r)
  {
    KeepIn(Candidates(x, y), keys)
  }

  /**
   * What the supplier of Board.__init__ becomes: an iterable is cycled, a
   * non-callable value is repeated, and a callable is called once per cell
   * (its k-th call returns next(k)).
   */
  datatype Supplier<T> = Cycle(items: seq<T>) | Call(next: nat -> T) | Repeat(value: T)

  datatype GridError = KeyError(key: Point) | StopIteration

  /** The value the supplier gives on its k-th call (k counted from 0). */
  function Supply<T>(s: Supplier<T>, k: nat): T
    requires !(s.Cycle? && s.items == [])
  {
    match s
    case Cycle(items) => items[k % |items|]
    case Call(next) => next(k)
    case Repeat(v) => v
  }

  /** The row-major call index of cell (i, j) in an n-column board. */
  function RowMajorIndex(n: int, p: Point): int
  {
    p.0 * n + p.1
  }

  /** The initial grid of Board.__init__: cell (i, j) gets the (i*n + j)-th supplied value. */
  function Fill<T>(m: int, n: int, s: Supplier<T>): (r: Result<map<Point, T>, GridError>)
    ensures r.Err? <==> m > 0 && n > 0 && s.Cycle? && s.items == []
    ensures r.Err? ==> r.error == StopIteration
    ensures r.Ok? ==> r.value.Keys == Points(m, n)
    ensures r.Ok? && s.Repeat? ==> forall p :: p in r.value ==> r.value[p] == s.value
    ensures r.Ok? && s.Cycle? ==>
      forall i, j :: 0 <= i < m && 0 <= j < n ==> r.value[(i, j)] == s.items[(i * n + j) % |s.items|]
    ensures r.Ok? && s.Call? ==>
      forall i, j :: 0 <= i < m && 0 <= j < n ==> r.value[(i, j)] == s.next(i * n + j)
  {
    if m > 0 && n > 0 && s.Cycle? && s.items == [] then Err(StopIteration)
    else Ok(map p | p in Points(m, n) :: Supply(s, RowMajorIndex(n, p)))
  }

  /** The row-major call indices of an m-by-n board are exactly 0 .. m*n-1, each once. */
  lemma RowMajorIndexBijective(m: int, n: int, p: Point, q: Point)
    requires InBounds(m, n, p) && InBounds(m, n, q)
    ensures 0 <= RowMajorIndex(n, p) < m * n
    ensures RowMajorIndex(n, p) == RowMajorIndex(n, q) ==> p == q
    ensures Before(p, q) ==> RowMajorIndex(n, p) < RowMajorIndex(n, q)
  {
    assert p.0 * n <= (m - 1) * n by { MulMonotone(p.0, m - 1, n); }
    if p.0 < q.0 {
      assert (p.0 + 1) * n <= q.0 * n by { MulMonotone(p.0 + 1, q.0, n); }
    } else if q.0 < p.0 {
      assert (q.0 + 1) * n <= p.0 * n by { MulMonotone(q.0 + 1, p.0, n); }
    }
  }

  lemma MulMonotone(a: int, b: int, n: int)
    requires a <= b && n >= 0
    ensures a * n <= b * n
  {
    assert b * n - a * n == (b - a) * n;
  }

  class Board<T> {
    const m: int
    const n: int
    var cells: map<Point, T>

    /** The key set never changes: it is [0,m) x [0,n). */
    ghost predicate Valid()
      reads this
    {
      cells.Keys == Points(m, n)
    }

    /** Board(m, n, supplier) when filling succeeds; see Fill for the StopIteration case. */
    constructor (m: int, n: int, supplier: Supplier<T>)
      requires Fill(m, n, supplier).Ok?
      ensures Valid() && this.m == m && this.n == n
      ensures cells == Fill(m, n, supplier).value
    {
      this.m := m;
      this.n := n;
      this.cells := Fill(m, n, supplier).value;
    }

    /** Board.__getitem__: KeyError off the board. */
    function Get(p: Point): (r: Result<T, GridError>)
      reads this
      requires Valid()
      ensures r.Ok? <==> InBounds(m, n, p)
      ensures r.Ok? ==> r.value == cells[p]
      ensures r.Err? ==> r.error == KeyError(p)
    {
      if p in cells then Ok(cells[p]) else Err(KeyError(p))
    }

    /** Board.__setitem__: looks the key up first, so it never adds a key. */
    method Set(p: Point, v: T) returns (r: Outcome<GridError>)
      requires Valid()
      modifies this
      ensures Valid()
      ensures r.Pass? <==> InBounds(m, n, p)
      ensures r.Fail? ==> r.error == KeyError(p)
      ensures cells == if r.Pass? then old(cells)[p := v] else old(cells)
      ensures r.Pass? ==> Get(p) == Ok(v)
    {
      if p in cells {
        cells := cells[p := v];
        r := Pass;
      } else {
        r := Fail(KeyError(p));
      }
    }

    /** Board.neighbor_xys: the in-grid points around (x, y), in offset order. */
    function NeighborXys(x: int, y: int): (r: seq<Point>)
      reads this
      requires Valid()
      ensures forall q :: q in r <==> InBounds(m, n, q) && Adjacent((x, y), q)
    {
      NeighborsIn(cells.Keys, x, y)
    }
  }
}
