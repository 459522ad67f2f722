/**
 * The screen side of find_minesweeper_grid.py: the Cell symbols, the
 * on-screen Board geometry (cell rectangles, cropping a cell out of a
 * screenshot, the order in which cells are visited), and FindImage's
 * bookkeeping around template matching: which templates are tried for
 * cells and for the end of the game, how identify_cell decides from the
 * matches it collected, and the arithmetic of get_new_board. Template
 * matching itself (cv2.matchTemplate and the thresholds) is an oracle.
 */
module ScreenGrid {
  import opened Wrappers
  import opened Grid

  /** The Cell enum; each member's value is the string it is declared with. */
  datatype Cell = C0 | C1 | C2 | C3 | C4 | C5 | C6 | C7 | C8 | Unopened | Flag | Mine | Unknown

  function Value(c: Cell): (v: string)
    ensures |v| >= 1
  {
    match c
    case C0 => "0"
    case C1 => "1"
    case C2 => "2"
    case C3 => "3"
    case C4 => "4"
    case C5 => "5"
    case C6 => "6"
    case C7 => "7"
    case C8 => "8"
    case Unopened => "U_UNOPENED"
    case Flag => "F_FLAG"
    case Mine => "*_MINE"
    case Unknown => "?_UNKNOWN"
  }

  /** Cell.__str__: the first character of the value. */
  function Glyph(c: Cell): (s: string)
    ensures |s| == 1 && s[0] == Value(c)[0]
  {
    Value(c)[..1]
  }

  /** The digit cells print their digit; the others print U, F, * and ?. */
  lemma GlyphTable()
    ensures Glyph(C0) == "0" && Glyph(C1) == "1" && Glyph(C2) == "2" && Glyph(C3) == "3"
    ensures Glyph(C4) == "4" && Glyph(C5) == "5" && Glyph(C6) == "6" && Glyph(C7) == "7"
    ensures Glyph(C8) == "8"
    ensures Glyph(Unopened) == "U" && Glyph(Flag) == "F" && Glyph(Mine) == "*" && Glyph(Unknown) == "?"
  {
  }

  /** No two cells print alike, so a printed glyph identifies its cell. */
  lemma GlyphInjective(a: Cell, b: Cell)
    requires Glyph(a) == Glyph(b)
    ensures a == b
  {
    assert Glyph(a)[0] == Glyph(b)[0];
  }

  // ----- screen geometry -----

  /** A Python slice with a start and a stop (step 1). */
  datatype Slice = Slice(start: int, stop: int)

  /**
   * The on-screen Board: cell and board sizes in pixels, and the number of
   * rows and columns (computed upstream by a float round, taken as given).
   */
  datatype ScreenBoard = ScreenBoard(cellWidth: int, cellHeight: int, boardWidth: int, boardHeight: int, rows: int, cols: int)

  /** A screenshot: rows of pixels. */
  type Picture<T> = seq<seq<T>>

  datatype ScreenError =
    | IndexError                     // cell_image outside the board
    | SubImageNotFound(name: string) // a template was not found
    | TooManyMatches                 // more than one cell template matched
    | KeyError(key: string)          // a dictionary lookup of an absent name
    | TypeError                      // a dictionary lookup of an unhashable value
    | ZeroDivisionError              // a board built with a zero cell size

  /** cell_dims(row, col): the y slice of the row and the x slice of the column. */
  function CellDims(b: ScreenBoard, row: int, col: int): (r: (Slice, Slice))
    ensures r.0.start == row * b.cellHeight && r.0.stop - r.0.start == b.cellHeight
    ensures r.1.start == col * b.cellWidth && r.1.stop - r.1.start == b.cellWidth
  {
    var xstart := col * b.cellWidth;
    var ystart := row * b.cellHeight;
    (Slice(ystart, ystart + b.cellHeight), Slice(xstart, xstart + b.cellWidth))
  }

  /** Pixel (y, x) lies in the rectangle cell_dims(row, col) describes. */
  predicate InCell(b: ScreenBoard, row: int, col: int, y: int, x: int)
  {
    var (sy, sx) := CellDims(b, row, col);
    sy.start <= y < sy.stop && sx.start <= x < sx.stop
  }

  /** Two bands [i*size, i*size+size) of a positive size overlap only when they are the same band. */
  lemma BandsDisjoint(i: int, j: int, size: int, v: int)
    requires size >= 1 && i < j
    requires i * size <= v < i * size + size
    ensures !(j * size <= v < j * size + size)
  {
    MulMonotone(i + 1, j, size);
    assert (i + 1) * size == i * size + size;
  }

  /** Distinct cells cover disjoint rectangles. */
  lemma CellsDisjoint(b: ScreenBoard, r1: int, c1: int, r2: int, c2: int, y: int, x: int)
    requires b.cellWidth >= 1 && b.cellHeight >= 1
    requires (r1, c1) != (r2, c2)
    requires InCell(b, r1, c1, y, x)
    ensures !InCell(b, r2, c2, y, x)
  {
    if r1 < r2 {
      BandsDisjoint(r1, r2, b.cellHeight, y);
    } else if r2 < r1 {
      if InCell(b, r2, c2, y, x) {
        BandsDisjoint(r2, r1, b.cellHeight, y);
      }
    } else if c1 < c2 {
      BandsDisjoint(c1, c2, b.cellWidth, x);
    } else if InCell(b, r2, c2, y, x) {
      BandsDisjoint(c2, c1, b.cellWidth, x);
    }
  }

  /** A cell's rectangle ends where the next one to the right and the next one below begin. */
  lemma CellsAbut(b: ScreenBoard, row: int, col: int)
    ensures CellDims(b, row, col).1.stop == CellDims(b, row, col + 1).1.start
    ensures CellDims(b, row, col).0.stop == CellDims(b, row + 1, col).0.start
  {
    assert (col + 1) * b.cellWidth == col * b.cellWidth + b.cellWidth;
    assert (row + 1) * b.cellHeight == row * b.cellHeight + b.cellHeight;
  }

  /** A numpy slice bound: a negative index counts from the end; both are clipped to [0, len]. */
  function ClipIndex(i: int, len: nat): (j: nat)
    ensures j <= len
    ensures 0 <= i <= len ==> j == i
  {
    if i < 0 then (if i + len < 0 then 0 else i + len)
    else if i > len then len
    else i
  }

  /** s[start:stop] with numpy's (and Python's) rules for negative and out-of-range bounds. */
  function SliceOf<T>(s: seq<T>, start: int, stop: int): (r: seq<T>)
    ensures 0 <= start <= stop <= |s| ==> r == s[start..stop]
  {
    var a := ClipIndex(start, |s|);
    var b := ClipIndex(stop, |s|);
    if a < b then s[a..b] else []
  }

  /**
   * cell_image: IndexError when row >= rows or col >= cols, otherwise
   * image[slice_y, slice_x]. Negative rows and columns are not rejected.
   */
  function CellImage<T>(image: Picture<T>, b: ScreenBoard, row: int, col: int): (r: Result<Picture<T>, ScreenError>)
    ensures r.Err? <==> row >= b.rows || col >= b.cols
    ensures r.Err? ==> r.error == IndexError
  {
    if row >= b.rows || col >= b.cols then Err(IndexError)
    else
      var (sy, sx) := CellDims(b, row, col);
      Ok(Crop(image, sy, sx))
  }

  /** image[sy, sx] on a two-dimensional array: the rows in sy, each cut to the columns in sx. */
  function Crop<T>(image: Picture<T>, sy: Slice, sx: Slice): Picture<T>
  {
    var band := SliceOf(image, sy.start, sy.stop);
    seq(|band|, i requires 0 <= i < |band| => SliceOf(band[i], sx.start, sx.stop))
  }

  /** A rectangle inside the picture is cut out exactly. */
  lemma CropInside<T>(image: Picture<T>, sy: Slice, sx: Slice)
    requires 0 <= sy.start <= sy.stop <= |image|
    requires 0 <= sx.start <= sx.stop && forall y :: 0 <= y < |image| ==> sx.stop <= |image[y]|
    ensures |Crop(image, sy, sx)| == sy.stop - sy.start
    ensures forall i :: 0 <= i < |Crop(image, sy, sx)| ==>
      |Crop(image, sy, sx)[i]| == sx.stop - sx.start &&
      forall j :: 0 <= j < |Crop(image, sy, sx)[i]| ==> Crop(image, sy, sx)[i][j] == image[sy.start + i][sx.start + j]
  {
    var band := SliceOf(image, sy.start, sy.stop);
    assert band == image[sy.start..sy.stop];
    var crop := Crop(image, sy, sx);
    forall i | 0 <= i < |crop|
      ensures |crop[i]| == sx.stop - sx.start
      ensures forall j :: 0 <= j < |crop[i]| ==> crop[i][j] == image[sy.start + i][sx.start + j]
    {
      assert band[i] == image[sy.start + i];
      assert crop[i] == band[i][sx.start..sx.stop];
    }
  }

  /**
   * A cell of the board whose rectangle lies inside the screenshot is cut
   * out exactly: pixel (i, j) of the crop is pixel (row*h + i, col*w + j).
   */
  lemma CellImageCrops<T>(image: Picture<T>, b: ScreenBoard, row: int, col: int)
    requires 0 <= row < b.rows && 0 <= col < b.cols
    requires b.cellWidth >= 0 && b.cellHeight >= 0
    requires (row + 1) * b.cellHeight <= |image|
    requires forall y :: 0 <= y < |image| ==> (col + 1) * b.cellWidth <= |image[y]|
    ensures CellImage(image, b, row, col).Ok?
    ensures |CellImage(image, b, row, col).value| == b.cellHeight
    ensures forall i, j :: 0 <= i < b.cellHeight && 0 <= j < b.cellWidth ==>
      |CellImage(image, b, row, col).value[i]| == b.cellWidth &&
      CellImage(image, b, row, col).value[i][j] == image[row * b.cellHeight + i][col * b.cellWidth + j]
  {
    var h, w := b.cellHeight, b.cellWidth;
    var y0, x0 := row * h, col * w;
    CellOffset(row, h);
    CellOffset(col, w);
    var sy, sx := Slice(y0, y0 + h), Slice(x0, x0 + w);
    assert CellDims(b, row, col) == (sy, sx);
    assert CellImage(image, b, row, col) == Ok(Crop(image, sy, sx));
    CropInside(image, sy, sx);
  }

  /** Where cell k of size size starts and ends. */
  lemma CellOffset(k: int, size: int)
    requires k >= 0 && size >= 0
    ensures 0 <= k * size && (k + 1) * size == k * size + size
  {
  }

  /**
   * The quirk of the missing lower-bound check: row -1 raises nothing,
   * whatever the cell height h; its y slice is [-h:0], whose stop numpy
   * reads as 0, at or before any start, so the crop is empty.
   */
  lemma NegativeRowIsEmpty<T>(image: Picture<T>, b: ScreenBoard)
    requires b.rows >= 1 && b.cols >= 1
    ensures CellImage(image, b, -1, 0) == Ok([])
  {
    var (sy, sx) := CellDims(b, -1, 0);
    assert sy.stop == 0;
    assert SliceOf(image, sy.start, sy.stop) == [];
    assert |CellImage(image, b, -1, 0).value| == 0;
  }

  /** The positions of row rowi, columns 0 .. count-1, in the order cells visits them. */
  function RowPositions(rowi: int, count: nat): (r: seq<Point>)
    ensures |r| == count
    ensures forall k :: 0 <= k < count ==> r[k] == (rowi, k)
  {
    if count == 0 then [] else RowPositions(rowi, count - 1) + [(rowi, count - 1)]
  }

  /** The positions of rows 0 .. count-1 of a board with cols columns, row after row. */
  function RowsPositions(count: nat, cols: nat): (r: seq<Point>)
    ensures forall k :: 0 <= k < |r| ==> InBounds(count, cols, r[k])
  {
    if count == 0 then [] else RowsPositions(count - 1, cols) + RowPositions(count - 1, cols)
  }

  /** The positions Board.cells visits: rowi in range(rows), then colj in range(cols). */
  function CellPositions(b: ScreenBoard): seq<Point>
  {
    RowsPositions(if b.rows < 0 then 0 else b.rows, if b.cols < 0 then 0 else b.cols)
  }

  /** Board.cells: (rowi, colj, cell_image) for every visited position. */
  function Cells<T>(image: Picture<T>, b: ScreenBoard): (r: seq<(int, int, Picture<T>)>)
    ensures |r| == |CellPositions(b)|
    ensures forall k :: 0 <= k < |r| ==>
      (r[k].0, r[k].1) == CellPositions(b)[k] && r[k].2 == CellImage(image, b, r[k].0, r[k].1).value
  {
    var ps := CellPositions(b);
    seq(|ps|, k requires 0 <= k < |ps| => (ps[k].0, ps[k].1, CellImage(image, b, ps[k].0, ps[k].1).value))
  }

  /** rows*cols positions: one per cell. */
  lemma {:induction false} RowsPositionsLength(count: nat, cols: nat)
    ensures |RowsPositions(count, cols)| == count * cols
  {
    if count > 0 {
      RowsPositionsLength(count - 1, cols);
      assert (count - 1) * cols + cols == count * cols;
    }
  }

  /** Every position of the count-by-cols rectangle is visited. */
  lemma {:induction false} RowsPositionsCover(count: nat, cols: nat, q: Point)
    requires InBounds(count, cols, q)
    ensures q in RowsPositions(count, cols)
  {
    var front := RowsPositions(count - 1, cols);
    var last := RowPositions(count - 1, cols);
    assert RowsPositions(count, cols) == front + last;
    if q.0 < count - 1 {
      RowsPositionsCover(count - 1, cols, q);
    } else {
      assert last[q.1] == q;
    }
  }

  /** The positions come in strictly increasing row-major order, so none is visited twice. */
  lemma {:induction false} RowsPositionsOrdered(count: nat, cols: nat)
    ensures StrictlyOrdered(RowsPositions(count, cols))
  {
    if count > 0 {
      RowsPositionsOrdered(count - 1, cols);
      var front := RowsPositions(count - 1, cols);
      var last := RowPositions(count - 1, cols);
      var ps := RowsPositions(count, cols);
      assert ps == front + last;
      forall i, j | 0 <= i < j < |ps| ensures Before(ps[i], ps[j]) {
        if j < |front| {
          assert ps[i] == front[i] && ps[j] == front[j];
        } else if i < |front| {
          assert ps[i] == front[i] && ps[j] == last[j - |front|];
        } else {
          assert ps[i] == last[i - |front|] && ps[j] == last[j - |front|];
        }
      }
    }
  }

  /**
   * cells yields exactly rows*cols triples, visiting every cell of the
   * board once in row-major order, each with its cell_image.
   */
  lemma CellsOrder<T>(image: Picture<T>, b: ScreenBoard)
    ensures |Cells(image, b)| == (if b.rows < 0 then 0 else b.rows) * (if b.cols < 0 then 0 else b.cols)
    ensures StrictlyOrdered(CellPositions(b))
    ensures forall q :: q in CellPositions(b) <==> InBounds(b.rows, b.cols, q)
  {
    var rows := if b.rows < 0 then 0 else b.rows;
    var cols := if b.cols < 0 then 0 else b.cols;
    RowsPositionsLength(rows, cols);
    RowsPositionsOrdered(rows, cols);
    forall q ensures q in CellPositions(b) <==> InBounds(b.rows, b.cols, q) {
      if InBounds(b.rows, b.cols, q) {
        RowsPositionsCover(rows, cols, q);
      }
    }
  }

  // ----- FindImage -----

  /** The names of IMAGE_NAMES_FILES, in order. */
  const IMAGE_NAMES: seq<string> := [
    "0", "1", "2", "3", "4", "5", "6", "7", "8", "EXPLODED", "FINISHED", "FLAG", "UNOPENED",
    "CORNER.NE", "CORNER.NW", "CORNER.SE", "CORNER.SW"]

  /** Python's `needle in hay` on strings: needle occurs in hay as a contiguous run. */
  predicate Contains(hay: string, needle: string)
  {
    exists i | 0 <= i <= |hay| - |needle| :: OccursAt(hay, needle, i)
  }

  /** needle occurs in hay at offset i. */
  predicate OccursAt(hay: string, needle: string, i: int)
  {
    0 <= i && i + |needle| <= |hay| && hay[i..i + |needle|] == needle
  }

  /** A needle longer than the haystack does not occur in it. */
  lemma ContainsShorter(hay: string, needle: string)
    requires |hay| < |needle|
    ensures !Contains(hay, needle)
  {
  }

  /** A needle whose first character is not at any offset it could start from does not occur. */
  lemma ContainsFirstChar(hay: string, needle: string)
    requires |needle| >= 1
    requires forall i :: 0 <= i && i + |needle| <= |hay| ==> hay[i] != needle[0]
    ensures !Contains(hay, needle)
  {
    forall i ensures !OccursAt(hay, needle, i) {
      if 0 <= i && i + |needle| <= |hay| {
        assert hay[i..i + |needle|][0] == hay[i];
      }
    }
  }

  /** The test deciding which templates identify cells: "UNOPENED", or a substring of "12345678". */
  predicate IsCellTemplateName(n: string)
  {
    n == "UNOPENED" || Contains("12345678", n)
  }

  /** The test deciding which templates signal the end of the game. */
  predicate IsEndTemplateName(n: string)
  {
    Contains(n, "EXPLODED") || Contains(n, "FINISHED")
  }

  /** The elements of xs that pass keep, in order. */
  function Filter<T>(xs: seq<T>, keep: T -> bool): (r: seq<T>)
    ensures |r| <= |xs|
  {
    if xs == [] then []
    else if keep(xs[0]) then [xs[0]] + Filter(xs[1..], keep)
    else Filter(xs[1..], keep)
  }

  /** Filter keeps exactly the elements that pass. */
  lemma {:induction false} FilterMembers<T>(xs: seq<T>, keep: T -> bool)
    ensures forall e :: e in Filter(xs, keep) ==> e in xs && keep(e)
    ensures forall e :: e in xs && keep(e) ==> e in Filter(xs, keep)
  {
    if xs != [] {
      FilterMembers(xs[1..], keep);
      assert xs == [xs[0]] + xs[1..];
    }
  }

  function Names<I>(images: seq<(string, I)>): (ns: seq<string>)
    ensures |ns| == |images|
    ensures forall k :: 0 <= k < |images| ==> ns[k] == images[k].0
  {
    seq(|images|, k requires 0 <= k < |images| => images[k].0)
  }

  /** Filtering entries by their names keeps exactly the names that pass. */
  lemma {:induction false} FilterNames<I>(images: seq<(string, I)>, keep: string -> bool, keepEntry: ((string, I)) -> bool)
    requires forall e :: keepEntry(e) == keep(e.0)
    ensures Names(Filter(images, keepEntry)) == Filter(Names(images), keep)
  {
    if images != [] {
      var e, rest := images[0], images[1..];
      FilterNames(rest, keep, keepEntry);
      var names := Names(images);
      assert names[0] == e.0 && names[1..] == Names(rest);
      if keepEntry(e) {
        NamesCons(e, Filter(rest, keepEntry));
      }
    }
  }

  lemma NamesCons<I>(e: (string, I), images: seq<(string, I)>)
    ensures Names([e] + images) == [e.0] + Names(images)
  {
  }

  /** Filtering distributes over concatenation. */
  lemma {:induction false} FilterAppend<T>(a: seq<T>, b: seq<T>, keep: T -> bool)
    ensures Filter(a + b, keep) == Filter(a, keep) + Filter(b, keep)
  {
    if a == [] {
      assert a + b == b;
    } else {
      FilterAppend(a[1..], b, keep);
      var ab := a + b;
      assert ab[0] == a[0];
      assert ab[1..] == a[1..] + b;
      if keep(a[0]) {
        assert [a[0]] + (Filter(a[1..], keep) + Filter(b, keep)) == ([a[0]] + Filter(a[1..], keep)) + Filter(b, keep);
      }
    }
  }


  lemma {:induction false} FilterKeepsAll<T>(xs: seq<T>, keep: T -> bool)
    requires forall i :: 0 <= i < |xs| ==> keep(xs[i])
    ensures Filter(xs, keep) == xs
  {
    if xs != [] {
      FilterKeepsAll(xs[1..], keep);
    }
  }

  lemma {:induction false} FilterDropsAll<T>(xs: seq<T>, keep: T -> bool)
    requires forall i :: 0 <= i < |xs| ==> !keep(xs[i])
    ensures Filter(xs, keep) == []
  {
    if xs != [] {
      FilterDropsAll(xs[1..], keep);
    }
  }

  /** FindImage as built by __init__: the cell sizes, the offsets, and the template lists. */
  datatype Finder<I> = Finder(
    height: int, width: int, extraX: int, extraY: int,
    allImages: seq<(string, I)>, endImages: seq<(string, I)>, cellImages: seq<(string, I)>)

  /** FindImage.__init__: images in dict order; the two lists keep that order. */
  function NewFinder<I(!new)>(images: seq<(string, I)>, height: int, width: int, extraX: int, extraY: int): (f: Finder<I>)
    ensures forall e :: e in f.cellImages <==> e in images && IsCellTemplateName(e.0)
    ensures forall e :: e in f.endImages <==> e in images && IsEndTemplateName(e.0)
  {
    FilterMembers(images, IsEndEntry);
    FilterMembers(images, IsCellEntry);
    Finder(height, width, extraX, extraY, images, Filter(images, IsEndEntry), Filter(images, IsCellEntry))
  }

  predicate IsCellEntry<I>(e: (string, I))
  {
    IsCellTemplateName(e.0)
  }

  predicate IsEndEntry<I>(e: (string, I))
  {
    IsEndTemplateName(e.0)
  }

  const DIGIT_NAMES: seq<string> := ["1", "2", "3", "4", "5", "6", "7", "8"]
  const END_NAMES: seq<string> := ["EXPLODED", "FINISHED"]
  const CORNER_NAMES: seq<string> := ["CORNER.NE", "CORNER.NW", "CORNER.SE", "CORNER.SW"]

  lemma ImageNamesSplit()
    ensures IMAGE_NAMES == ["0"] + DIGIT_NAMES + END_NAMES + ["FLAG"] + ["UNOPENED"] + CORNER_NAMES
  {
  }

  /** "1" .. "8" are substrings of "12345678"; "0", the end names, "FLAG" and the corners are not. */
  lemma CellNameTests()
    ensures forall i :: 0 <= i < |DIGIT_NAMES| ==> IsCellTemplateName(DIGIT_NAMES[i])
    ensures !IsCellTemplateName("0") && !IsCellTemplateName("FLAG")
    ensures forall i :: 0 <= i < |END_NAMES| ==> !IsCellTemplateName(END_NAMES[i])
    ensures forall i :: 0 <= i < |CORNER_NAMES| ==> !IsCellTemplateName(CORNER_NAMES[i])
  {
    var hay := "12345678";
    forall i | 0 <= i < |DIGIT_NAMES| ensures Contains(hay, DIGIT_NAMES[i]) {
      assert OccursAt(hay, DIGIT_NAMES[i], i);
    }
    ContainsFirstChar(hay, "0");
    ContainsFirstChar(hay, "FLAG");
    forall i | 0 <= i < |END_NAMES| ensures !IsCellTemplateName(END_NAMES[i]) {
      ContainsFirstChar(hay, END_NAMES[i]);
    }
    forall i | 0 <= i < |CORNER_NAMES| ensures !IsCellTemplateName(CORNER_NAMES[i]) {
      ContainsShorter(hay, CORNER_NAMES[i]);
    }
  }

  /** Only "EXPLODED" and "FINISHED" contain "EXPLODED" or "FINISHED". */
  lemma EndNameTests()
    ensures forall i :: 0 <= i < |END_NAMES| ==> IsEndTemplateName(END_NAMES[i])
    ensures !IsEndTemplateName("0") && !IsEndTemplateName("FLAG") && !IsEndTemplateName("UNOPENED")
    ensures forall i :: 0 <= i < |DIGIT_NAMES| ==> !IsEndTemplateName(DIGIT_NAMES[i])
    ensures forall i :: 0 <= i < |CORNER_NAMES| ==> !IsEndTemplateName(CORNER_NAMES[i])
  {
    assert OccursAt("EXPLODED", "EXPLODED", 0) && OccursAt("FINISHED", "FINISHED", 0);
    forall n | n in ["0", "FLAG", "UNOPENED"] + DIGIT_NAMES + CORNER_NAMES
      ensures !Contains(n, "EXPLODED") && !Contains(n, "FINISHED")
    {
      ContainsFirstChar(n, "EXPLODED");
      ContainsFirstChar(n, "FINISHED");
    }
    assert forall i :: 0 <= i < |DIGIT_NAMES| ==> DIGIT_NAMES[i] in ["0", "FLAG", "UNOPENED"] + DIGIT_NAMES + CORNER_NAMES;
    assert forall i :: 0 <= i < |CORNER_NAMES| ==> CORNER_NAMES[i] in ["0", "FLAG", "UNOPENED"] + DIGIT_NAMES + CORNER_NAMES;
  }

  /** Filtering six segments, each kept or dropped whole, keeps the second and the fifth. */
  lemma FilterSecondAndFifth<T>(a: seq<T>, b: seq<T>, c: seq<T>, d: seq<T>, e: seq<T>, f: seq<T>, keep: T -> bool)
    requires forall i :: 0 <= i < |a| ==> !keep(a[i])
    requires forall i :: 0 <= i < |b| ==> keep(b[i])
    requires forall i :: 0 <= i < |c| ==> !keep(c[i])
    requires forall i :: 0 <= i < |d| ==> !keep(d[i])
    requires forall i :: 0 <= i < |e| ==> keep(e[i])
    requires forall i :: 0 <= i < |f| ==> !keep(f[i])
    ensures Filter(a + b + c + d + e + f, keep) == b + e
  {
    FilterDropsAll(a, keep);
    FilterKeepsAll(b, keep);
    FilterDropsAll(c, keep);
    FilterDropsAll(d, keep);
    FilterKeepsAll(e, keep);
    FilterDropsAll(f, keep);
    FilterAppend(a, b, keep);
    assert Filter(a + b, keep) == b;
    FilterAppend(a + b, c, keep);
    FilterAppend(a + b + c, d, keep);
    assert Filter(a + b + c + d, keep) == b;
    FilterAppend(a + b + c + d, e, keep);
    FilterAppend(a + b + c + d + e, f, keep);
  }

  /** Of the shipped names, the cell templates are "1" .. "8" and "UNOPENED", in that order. */
  lemma ShippedCellNames()
    ensures Filter(IMAGE_NAMES, IsCellTemplateName) == DIGIT_NAMES + ["UNOPENED"]
  {
    ImageNamesSplit();
    CellNameTests();
    FilterSecondAndFifth(["0"], DIGIT_NAMES, END_NAMES, ["FLAG"], ["UNOPENED"], CORNER_NAMES, IsCellTemplateName);
  }

  /** Of the shipped names, the end templates are "EXPLODED" and "FINISHED", in that order. */
  lemma ShippedEndNames()
    ensures Filter(IMAGE_NAMES, IsEndTemplateName) == END_NAMES
  {
    ImageNamesSplit();
    EndNameTests();
    FilterSecondAndFifth(["0"] + DIGIT_NAMES, END_NAMES, ["FLAG"], ["UNOPENED"], [], CORNER_NAMES, IsEndTemplateName);
    assert ["0"] + DIGIT_NAMES + END_NAMES + ["FLAG"] + ["UNOPENED"] + [] + CORNER_NAMES == IMAGE_NAMES;
  }

  /**
   * With the shipped names, the cell templates are "1" .. "8" and
   * "UNOPENED" ("0" is left out) and the end templates are "EXPLODED" and
   * "FINISHED", in that order.
   */
  lemma ShippedTemplates<I(!new)>(images: seq<(string, I)>, height: int, width: int, extraX: int, extraY: int)
    requires Names(images) == IMAGE_NAMES
    ensures Names(NewFinder(images, height, width, extraX, extraY).cellImages) == DIGIT_NAMES + ["UNOPENED"]
    ensures Names(NewFinder(images, height, width, extraX, extraY).endImages) == END_NAMES
  {
    FilterNames(images, IsCellTemplateName, IsCellEntry);
    FilterNames(images, IsEndTemplateName, IsEndEntry);
    ShippedCellNames();
    ShippedEndNames();
  }

  /** The value of a dictionary key: the last entry with that name wins, as in a dict display. */
  function Lookup<I>(images: seq<(string, I)>, name: string): (r: Option<I>)
    ensures r.None? <==> name !in Names(images)
    ensures r.Some? ==> exists i :: (
      && 0 <= i < |images| && images[i] == (name, r.value)
      && forall j :: i < j < |images| ==> images[j].0 != name)
  {
    if images == [] then None
    else
      var rest := Lookup(images[1..], name);
      if rest.Some? then rest
      else if images[0].0 == name then Some(images[0].1)
      else None
  }

  /** image_cells: the cell each template name stands for. */
  function ImageCell(name: string): (r: Option<Cell>)
    ensures r.Some? ==> r.value != Unknown
  {
    match name
    case "0" => Some(C0)
    case "1" => Some(C1)
    case "2" => Some(C2)
    case "3" => Some(C3)
    case "4" => Some(C4)
    case "5" => Some(C5)
    case "6" => Some(C6)
    case "7" => Some(C7)
    case "8" => Some(C8)
    case "UNOPENED" => Some(Unopened)
    case "FLAG" => Some(Flag)
    case "EXPLODED" => Some(Mine)
    case _ => None
  }

  /**
   * What matching one template against a cell gives. The exact branch
   * (template smaller and of the same aspect, cropped, threshold 0.99) and
   * the loose branch (whole cell, threshold 0.95) are chosen by image
   * sizes; the oracle says which branch ran and whether it matched. The
   * loose branch carries get_matches' coordinate arrays.
   */
  datatype MatchOutcome = NoMatch | ExactMatch | LooseMatch(xs: seq<int>, ys: seq<int>)

  /** An element of match_vals: a template name, or the pair of coordinate arrays. */
  datatype MatchValue = Name(name: string) | Coordinates(xs: seq<int>, ys: seq<int>)

  /** The inner matches of identify_cell as written: the loose branch returns get_matches' result. */
  function MatchesAsWritten(name: string, o: MatchOutcome): (r: Option<MatchValue>)
    ensures r.None? <==> o.NoMatch?
    ensures o.LooseMatch? ==> r == Some(Coordinates(o.xs, o.ys))
  {
    match o
    case NoMatch => None
    case ExactMatch => Some(Name(name))
    case LooseMatch(xs, ys) => Some(Coordinates(xs, ys))
  }

  /** matches as evidently intended: both branches return the template's name. */
  function Matches(name: string, o: MatchOutcome): (r: Option<MatchValue>)
    ensures r.None? <==> o.NoMatch?
    ensures r.Some? ==> r.value == Name(name)
  {
    if o.NoMatch? then None else Some(Name(name))
  }

  /** matches(cell, template, name), as written or as intended. */
  function MatchOf(name: string, o: MatchOutcome, asWritten: bool): (r: Option<MatchValue>)
    ensures r.None? <==> o.NoMatch?
  {
    if asWritten then MatchesAsWritten(name, o) else Matches(name, o)
  }

  /** The values the loop over the cell templates appends to match_vals, in order. */
  function Collected<I>(templates: seq<(string, I)>, outcome: I -> MatchOutcome, asWritten: bool): (r: seq<MatchValue>)
    ensures |r| <= |templates|
    ensures !asWritten ==> forall k :: 0 <= k < |r| ==> r[k].Name?
  {
    if templates == [] then []
    else
      var (name, img) := templates[|templates| - 1];
      var m := MatchOf(name, outcome(img), asWritten);
      Collected(templates[..|templates| - 1], outcome, asWritten) + (if m.Some? then [m.value] else [])
  }

  /** No template matched: nothing is collected. */
  lemma {:induction false} CollectedNone<I>(templates: seq<(string, I)>, outcome: I -> MatchOutcome, asWritten: bool)
    requires forall k :: 0 <= k < |templates| ==> outcome(templates[k].1).NoMatch?
    ensures Collected(templates, outcome, asWritten) == []
  {
    if templates != [] {
      CollectedNone(templates[..|templates| - 1], outcome, asWritten);
    }
  }

  /** Exactly template k matched: its value alone is collected. */
  lemma {:induction false} CollectedSingle<I>(templates: seq<(string, I)>, outcome: I -> MatchOutcome, asWritten: bool, k: int)
    requires 0 <= k < |templates| && !outcome(templates[k].1).NoMatch?
    requires forall j :: 0 <= j < |templates| && j != k ==> outcome(templates[j].1).NoMatch?
    ensures Collected(templates, outcome, asWritten) ==
      [MatchOf(templates[k].0, outcome(templates[k].1), asWritten).value]
  {
    var front := templates[..|templates| - 1];
    if k == |templates| - 1 {
      CollectedNone(front, outcome, asWritten);
    } else {
      CollectedSingle(front, outcome, asWritten, k);
    }
  }

  /** Collecting over a prefix collects no more than over the whole list. */
  lemma {:induction false} CollectedPrefix<I>(templates: seq<(string, I)>, outcome: I -> MatchOutcome, asWritten: bool, i: int)
    requires 0 <= i <= |templates|
    ensures |Collected(templates[..i], outcome, asWritten)| <= |Collected(templates, outcome, asWritten)|
  {
    if i < |templates| {
      var front := templates[..|templates| - 1];
      assert templates[..i] == front[..i];
      CollectedPrefix(front, outcome, asWritten, i);
    } else {
      assert templates[..i] == templates;
    }
  }

  /** A matching template adds exactly one value. */
  lemma CollectedHit<I>(templates: seq<(string, I)>, outcome: I -> MatchOutcome, asWritten: bool, i: int)
    requires 0 <= i < |templates| && !outcome(templates[i].1).NoMatch?
    ensures |Collected(templates[..i + 1], outcome, asWritten)| == |Collected(templates[..i], outcome, asWritten)| + 1
  {
    assert templates[..i + 1][..i] == templates[..i];
  }

  /** Two matching templates collect at least two values. */
  lemma CollectedTwo<I>(templates: seq<(string, I)>, outcome: I -> MatchOutcome, asWritten: bool, j: int, k: int)
    requires 0 <= j < k < |templates|
    requires !outcome(templates[j].1).NoMatch? && !outcome(templates[k].1).NoMatch?
    ensures |Collected(templates, outcome, asWritten)| >= 2
  {
    CollectedHit(templates, outcome, asWritten, j);
    CollectedPrefix(templates[..k], outcome, asWritten, j + 1);
    assert templates[..k][..j + 1] == templates[..j + 1];
    CollectedHit(templates, outcome, asWritten, k);
    CollectedPrefix(templates, outcome, asWritten, k + 1);
  }

  /**
   * identify_cell, decided from the collected values: when none matched,
   * the "0" template is looked up (KeyError if it is missing) and tried
   * with its own matching algorithm; then no value is SubImageNotFound,
   * more than one is TooManyMatches, and a single one is looked up in
   * image_cells.
   */
  function Identified<I>(
    f: Finder<I>, outcome: I -> MatchOutcome, zeroOutcome: I -> MatchOutcome, asWritten: bool): (r: Result<Cell, ScreenError>)
  {
    var found := Collected(f.cellImages, outcome, asWritten);
    var zero := Lookup(f.allImages, "0");
    var withZero: Result<seq<MatchValue>, ScreenError> :=
      if found != [] then Ok(found)
      else if zero.None? then Err(ScreenError.KeyError("0"))
      else
        var m := MatchOf("0", zeroOutcome(zero.value), asWritten);
        Ok(if m.Some? then [m.value] else []);
    if withZero.Err? then Err(withZero.error)
    else if withZero.value == [] then Err(SubImageNotFound("image"))
    else if |withZero.value| > 1 then Err(TooManyMatches)
    else Decided(withZero.value[0])
  }

  /** The lookup image_cells[name] of the single value collected. */
  function Decided(v: MatchValue): (r: Result<Cell, ScreenError>)
    ensures v.Coordinates? ==> r == Err(TypeError)
    ensures v.Name? ==> (r.Ok? <==> ImageCell(v.name).Some?)
  {
    match v
    case Coordinates(_, _) => Err(TypeError)
    case Name(name) => CellNamed(name)
  }

  /** The cell the single matching template stands for, or KeyError for a name with no cell. */
  function CellNamed(name: string): (r: Result<Cell, ScreenError>)
    ensures r.Ok? <==> ImageCell(name).Some?
  {
    if ImageCell(name).Some? then Ok(ImageCell(name).value) else Err(ScreenError.KeyError(name))
  }

  /** A single matching cell template decides the cell, whatever the "0" template would do. */
  lemma IdentifyUnique<I>(f: Finder<I>, outcome: I -> MatchOutcome, zeroOutcome: I -> MatchOutcome, k: int)
    requires 0 <= k < |f.cellImages| && !outcome(f.cellImages[k].1).NoMatch?
    requires forall j :: 0 <= j < |f.cellImages| && j != k ==> outcome(f.cellImages[j].1).NoMatch?
    ensures Identified(f, outcome, zeroOutcome, false) == CellNamed(f.cellImages[k].0)
  {
    CollectedSingle(f.cellImages, outcome, false, k);
  }

  /** Two matching cell templates are TooManyMatches. */
  lemma IdentifyTooMany<I>(f: Finder<I>, outcome: I -> MatchOutcome, zeroOutcome: I -> MatchOutcome, j: int, k: int)
    requires 0 <= j < k < |f.cellImages|
    requires !outcome(f.cellImages[j].1).NoMatch? && !outcome(f.cellImages[k].1).NoMatch?
    ensures Identified(f, outcome, zeroOutcome, false) == Err(TooManyMatches)
  {
    CollectedTwo(f.cellImages, outcome, false, j, k);
  }

  /**
   * No cell template matched: the "0" template decides. A missing "0" is a
   * KeyError, a "0" that does not match either is SubImageNotFound, and
   * one that matches is C0.
   */
  lemma IdentifyNoneMatched<I>(f: Finder<I>, outcome: I -> MatchOutcome, zeroOutcome: I -> MatchOutcome)
    requires forall j :: 0 <= j < |f.cellImages| ==> outcome(f.cellImages[j].1).NoMatch?
    ensures Identified(f, outcome, zeroOutcome, false) ==
      if "0" !in Names(f.allImages) then Err(ScreenError.KeyError("0"))
      else if zeroOutcome(Lookup(f.allImages, "0").value).NoMatch? then Err(SubImageNotFound("image"))
      else Ok(C0)
  {
    CollectedNone(f.cellImages, outcome, false);
  }

  /**
   * As written, a single template that matches through the loose branch
   * puts get_matches' coordinate arrays into match_vals, and the final
   * lookup fails with TypeError where the template's cell was meant.
   */
  lemma LooseMatchAsWritten<I>(f: Finder<I>, outcome: I -> MatchOutcome, zeroOutcome: I -> MatchOutcome, k: int)
    requires 0 <= k < |f.cellImages| && outcome(f.cellImages[k].1).LooseMatch?
    requires forall j :: 0 <= j < |f.cellImages| && j != k ==> outcome(f.cellImages[j].1).NoMatch?
    ensures Identified(f, outcome, zeroOutcome, true) == Err(TypeError)
    ensures Identified(f, outcome, zeroOutcome, false) == CellNamed(f.cellImages[k].0)
  {
    CollectedSingle(f.cellImages, outcome, true, k);
    CollectedSingle(f.cellImages, outcome, false, k);
  }

  /**
   * The input that shows it: the template "1" is the only cell template
   * and it matches loosely; as written the result is TypeError, as meant
   * it is C1.
   */
  lemma LooseMatchCounterexample()
    ensures var f := Finder(30, 30, 11, 11, [("1", 7)], [], [("1", 7)]);
      var loose := (img: int) => LooseMatch([3], [4]);
      Identified(f, loose, loose, true) == Err(TypeError) && Identified(f, loose, loose, false) == Ok(C1)
  {
    var f := Finder(30, 30, 11, 11, [("1", 7)], [], [("1", 7)]);
    var loose := (img: int) => LooseMatch([3], [4]);
    LooseMatchAsWritten(f, loose, loose, 0);
  }

  /**
   * identify_cell (with matches as intended): try every cell template,
   * collect the names that match, fall back on "0", then decide.
   */
  method IdentifyCell<I>(f: Finder<I>, outcome: I -> MatchOutcome, zeroOutcome: I -> MatchOutcome) returns (r: Result<Cell, ScreenError>)
    ensures r == Identified(f, outcome, zeroOutcome, false)
  {
    var matchVals: seq<MatchValue> := [];
    var i := 0;
    while i < |f.cellImages|
      invariant 0 <= i <= |f.cellImages|
      invariant matchVals == Collected(f.cellImages[..i], outcome, false)
    {
      var (name, img) := f.cellImages[i];
      var m := Matches(name, outcome(img));
      if m.Some? {
        matchVals := matchVals + [m.value];
      }
      assert f.cellImages[..i + 1][..i] == f.cellImages[..i];
      i := i + 1;
    }
    assert f.cellImages[..i] == f.cellImages;
    if |matchVals| == 0 {
      var template0 := Lookup(f.allImages, "0");
      if template0.None? {
        return Err(ScreenError.KeyError("0"));
      }
      var m := Matches("0", zeroOutcome(template0.value));
      if m.Some? {
        matchVals := [m.value];
      }
    }
    if |matchVals| == 0 {
      return Err(SubImageNotFound("image"));
    }
    if |matchVals| > 1 {
      return Err(TooManyMatches);
    }
    r := Decided(matchVals[0]);
  }

  // ----- the end of the game -----

  /** Template k is found, and none before it is. */
  predicate FirstFoundAt<I>(templates: seq<(string, I)>, found: I -> bool, k: int)
  {
    0 <= k < |templates| && found(templates[k].1) && forall j :: 0 <= j < k ==> !found(templates[j].1)
  }

  /**
   * is_game_ended: the name of the first end template that is found in
   * the screenshot, or "" when none is. found is the template matcher.
   */
  method IsGameEnded<I>(f: Finder<I>, found: I -> bool) returns (name: string)
    ensures (forall k :: 0 <= k < |f.endImages| ==> !found(f.endImages[k].1)) ==> name == ""
    ensures forall k :: FirstFoundAt(f.endImages, found, k) ==> name == f.endImages[k].0
  {
    var i := 0;
    while i < |f.endImages|
      invariant 0 <= i <= |f.endImages|
      invariant forall j :: 0 <= j < i ==> !found(f.endImages[j].1)
    {
      var (n, template) := f.endImages[i];
      if found(template) {
        return n;
      }
      i := i + 1;
    }
    return "";
  }

  /** The end templates of a FindImage built by __init__ all have non-empty names. */
  lemma EndNamesNonEmpty<I(!new)>(images: seq<(string, I)>, height: int, width: int, extraX: int, extraY: int)
    ensures forall k :: 0 <= k < |NewFinder(images, height, width, extraX, extraY).endImages| ==>
      NewFinder(images, height, width, extraX, extraY).endImages[k].0 != ""
  {
    var f := NewFinder(images, height, width, extraX, extraY);
    forall k | 0 <= k < |f.endImages| ensures f.endImages[k].0 != "" {
      assert f.endImages[k] in f.endImages;
      if f.endImages[k].0 == "" {
        ContainsShorter("", "EXPLODED");
        ContainsShorter("", "FINISHED");
      }
    }
  }

  // ----- locating the board -----

  /**
   * Python's round(p / q) for integers: the nearest integer, ties to even.
   * (The float quotient is taken as exact.)
   */
  function RoundRatio(p: int, q: int): int
    requires q != 0
  {
    if q < 0 then RoundPositive(-p, -q) else RoundPositive(p, q)
  }

  /** round(p / q) for a positive q: the floor, plus one above the half, and to even at the half. */
  function RoundPositive(p: int, q: int): int
    requires q > 0
  {
    var fl := p / q;
    var rem := p % q;
    if 2 * rem < q then fl
    else if 2 * rem > q then fl + 1
    else if fl % 2 == 0 then fl
    else fl + 1
  }

  /** RoundRatio(p, q) lies within half a step of p / q, and on a tie it is even. */
  lemma RoundNearest(p: int, q: int)
    requires q != 0
    ensures q > 0 ==> -q <= 2 * (p - RoundRatio(p, q) * q) <= q
    ensures q < 0 ==> q <= 2 * (p - RoundRatio(p, q) * q) <= -q
    ensures 2 * (p - RoundRatio(p, q) * q) == q || 2 * (p - RoundRatio(p, q) * q) == -q ==> RoundRatio(p, q) % 2 == 0
  {
    var r := RoundRatio(p, q);
    if q < 0 {
      RoundNearestPositive(-p, -q);
      assert -p - r * -q == -(p - r * q);
    } else {
      RoundNearestPositive(p, q);
    }
  }

  /** RoundNearest for a positive divisor, branch by branch. */
  lemma RoundNearestPositive(p: int, q: int)
    requires q > 0
    ensures -q <= 2 * (p - RoundPositive(p, q) * q) <= q
    ensures 2 * (p - RoundPositive(p, q) * q) == q || 2 * (p - RoundPositive(p, q) * q) == -q ==> RoundPositive(p, q) % 2 == 0
  {
    var fl, rem := p / q, p % q;
    var r := RoundPositive(p, q);
    assert 0 <= rem < q && p == fl * q + rem;
    if 2 * rem < q || (2 * rem == q && fl % 2 == 0) {
      assert r == fl;
      assert p - r * q == rem;
    } else {
      assert r == fl + 1;
      NextMultiple(fl, q);
      assert p - r * q == rem - q;
    }
  }

  lemma NextMultiple(a: int, q: int)
    ensures (a + 1) * q == a * q + q
  {
  }

  /** The only multiple of a positive q strictly between -q and q is zero. */
  lemma SmallMultiple(d: int, q: int)
    requires q > 0 && -q < d * q < q
    ensures d == 0
  {
    if d >= 1 {
      MulMonotone(1, d, q);
    } else if d <= -1 {
      MulMonotone(d, -1, q);
    }
  }

  /**
   * Board((board_width, board_height), (width, height)): rows and cols are
   * the rounded ratios of board to cell size; a zero cell size divides by zero.
   */
  function NewScreenBoard(boardWidth: int, boardHeight: int, cellWidth: int, cellHeight: int): (r: Result<ScreenBoard, ScreenError>)
    ensures r.Err? <==> cellWidth == 0 || cellHeight == 0
    ensures r.Err? ==> r.error == ZeroDivisionError
    ensures r.Ok? ==> (r.value.cellWidth == cellWidth && r.value.cellHeight == cellHeight &&
      r.value.boardWidth == boardWidth && r.value.boardHeight == boardHeight)
  {
    if cellHeight == 0 || cellWidth == 0 then Err(ZeroDivisionError)
    else Ok(ScreenBoard(cellWidth, cellHeight, boardWidth, boardHeight,
      RoundRatio(boardHeight, cellHeight), RoundRatio(boardWidth, cellWidth)))
  }

  /** A board an exact number of cells wide and high has exactly that many rows and columns. */
  lemma NewScreenBoardExact(rows: int, cols: int, cellWidth: int, cellHeight: int)
    requires cellWidth > 0 && cellHeight > 0
    ensures NewScreenBoard(cols * cellWidth, rows * cellHeight, cellWidth, cellHeight).Ok?
    ensures NewScreenBoard(cols * cellWidth, rows * cellHeight, cellWidth, cellHeight).value.rows == rows
    ensures NewScreenBoard(cols * cellWidth, rows * cellHeight, cellWidth, cellHeight).value.cols == cols
  {
    RoundUnique(rows * cellHeight, cellHeight, rows);
    RoundUnique(cols * cellWidth, cellWidth, cols);
  }

  /** An integer strictly within half a step of p / q is its rounding. */
  lemma RoundUnique(p: int, q: int, r: int)
    requires q > 0 && -q < 2 * (p - r * q) < q
    ensures RoundRatio(p, q) == r
  {
    var s := RoundRatio(p, q);
    RoundNearest(p, q);
    assert 2 * ((r - s) * q) == 2 * (p - s * q) - 2 * (p - r * q);
    SmallMultiple(r - s, q);
  }

  /** get_matches: the coordinates at which the template scored above the threshold, or SubImageNotFound(name). */
  function GetMatches(name: string, hits: (seq<int>, seq<int>)): (r: Result<(seq<int>, seq<int>), ScreenError>)
    ensures r.Ok? <==> |hits.0| > 0 && |hits.1| > 0
    ensures r.Ok? ==> r.value == hits
    ensures r.Err? ==> r.error == SubImageNotFound(name)
  {
    if |hits.1| == 0 || |hits.0| == 0 then Err(SubImageNotFound(name)) else Ok(hits)
  }

  /** get_unopened_corner: look up the "CORNER.<corner>" template, then match it. */
  function UnopenedCorner<I>(f: Finder<I>, corner: string, hits: I -> (seq<int>, seq<int>)): (r: Result<(seq<int>, seq<int>), ScreenError>)
    ensures Lookup(f.allImages, "CORNER." + corner).None? ==> r == Err(ScreenError.KeyError("CORNER." + corner))
    ensures Lookup(f.allImages, "CORNER." + corner).Some? ==> r == GetMatches(corner, hits(Lookup(f.allImages, "CORNER." + corner).value))
  {
    var template := Lookup(f.allImages, "CORNER." + corner);
    if template.None? then Err(ScreenError.KeyError("CORNER." + corner))
    else GetMatches(corner, hits(template.value))
  }

  /**
   * get_new_board: locate the four corners (NE, NW, SE, SW, in that order;
   * the first failure is raised, and SW must be found though it is not
   * used), then the board's top-left pixel is the first NW hit moved by
   * the offsets, and the board extends one cell past the first NE hit to
   * the right and the first SE hit downwards.
   */
  function GetNewBoard<I>(f: Finder<I>, hits: I -> (seq<int>, seq<int>)): (r: Result<(Point, ScreenBoard), ScreenError>)
    ensures r.Err? ==> r.error.KeyError? || r.error.SubImageNotFound? || r.error == ZeroDivisionError
  {
    var ne := UnopenedCorner(f, "NE", hits);
    var nw := UnopenedCorner(f, "NW", hits);
    var se := UnopenedCorner(f, "SE", hits);
    var sw := UnopenedCorner(f, "SW", hits);
    if ne.Err? then Err(ne.error)
    else if nw.Err? then Err(nw.error)
    else if se.Err? then Err(se.error)
    else if sw.Err? then Err(sw.error)
    else
      var nwx := nw.value.0[0] + f.extraX;
      var nwy := nw.value.1[0] + f.extraY;
      var boardWidth := ne.value.0[0] - nwx + f.width;
      var boardHeight := se.value.1[0] - nwy + f.height;
      var board := NewScreenBoard(boardWidth, boardHeight, f.width, f.height);
      if board.Err? then Err(board.error) else Ok(((nwx, nwy), board.value))
  }

  /** The corners get_new_board needs, all found: the first hit of each of the four templates. */
  predicate CornersFound<I>(f: Finder<I>, hits: I -> (seq<int>, seq<int>))
  {
    forall corner | corner in ["NE", "NW", "SE", "SW"] :: UnopenedCorner(f, corner, hits).Ok?
  }

  /**
   * With every corner found and non-zero cell sizes, the board starts at
   * the offset NW hit and its right and bottom edges lie one cell past the
   * NE hit and the SE hit.
   */
  lemma GetNewBoardSpan<I>(f: Finder<I>, hits: I -> (seq<int>, seq<int>))
    requires CornersFound(f, hits) && f.width != 0 && f.height != 0
    ensures GetNewBoard(f, hits).Ok?
    ensures GetNewBoard(f, hits).value.0 ==
      (UnopenedCorner(f, "NW", hits).value.0[0] + f.extraX, UnopenedCorner(f, "NW", hits).value.1[0] + f.extraY)
    ensures GetNewBoard(f, hits).value.0.0 + GetNewBoard(f, hits).value.1.boardWidth ==
      UnopenedCorner(f, "NE", hits).value.0[0] + f.width
    ensures GetNewBoard(f, hits).value.0.1 + GetNewBoard(f, hits).value.1.boardHeight ==
      UnopenedCorner(f, "SE", hits).value.1[0] + f.height
    ensures GetNewBoard(f, hits).value.1.cellWidth == f.width && GetNewBoard(f, hits).value.1.cellHeight == f.height
  {
    assert UnopenedCorner(f, "NE", hits).Ok? && UnopenedCorner(f, "NW", hits).Ok?;
    assert UnopenedCorner(f, "SE", hits).Ok? && UnopenedCorner(f, "SW", hits).Ok?;
  }

  /** A missing NE template is reported before anything else, even when other corners are missing too. */
  lemma GetNewBoardNeFirst<I>(f: Finder<I>, hits: I -> (seq<int>, seq<int>))
    requires "CORNER.NE" !in Names(f.allImages)
    ensures GetNewBoard(f, hits) == Err(ScreenError.KeyError("CORNER.NE"))
  {
    assert "CORNER." + "NE" == "CORNER.NE";
  }

  /** A SW corner that is not on screen fails get_new_board though its coordinates are never used. */
  lemma GetNewBoardNeedsSw<I>(f: Finder<I>, hits: I -> (seq<int>, seq<int>))
    requires UnopenedCorner(f, "NE", hits).Ok? && UnopenedCorner(f, "NW", hits).Ok? && UnopenedCorner(f, "SE", hits).Ok?
    requires "CORNER.SW" in Names(f.allImages) && |hits(Lookup(f.allImages, "CORNER.SW").value).1| == 0
    ensures GetNewBoard(f, hits) == Err(SubImageNotFound("SW"))
  {
    assert "CORNER." + "SW" == "CORNER.SW";
  }
}
