/** The game board: a square array of cells, the number of tiles on it and
    the one-way flag that records a 2048 tile. */
module Boards {
  import opened Lines
  import opened Grids

  /** The exceptions the board throws. */
  datatype BoardError =
    | InvalidSize   // setSize with a size of at most 1
    | NotSquare     // setBoard with a board whose row count differs from its first row's length
    | NoRows        // setBoard with a board without rows: reading its first row fails

  datatype Result<T> = Ok(value: T) | Err(error: BoardError)

  datatype Outcome = Pass | Fail(error: BoardError)

  /** The cells of an array, as rows. */
  ghost function Snapshot(a: array2<int>): (g: Grid)
    reads a
    ensures |g| == a.Length0
    ensures forall i :: 0 <= i < |g| ==> |g[i]| == a.Length1
    ensures forall i, j :: 0 <= i < a.Length0 && 0 <= j < a.Length1 ==> g[i][j] == a[i, j]
  {
    seq(a.Length0, i reads a requires 0 <= i < a.Length0 =>
      seq(a.Length1, j reads a requires 0 <= j < a.Length1 => a[i, j]))
  }

  /** Whether some cell holds at least v. */
  ghost predicate HasTileFrom(g: Grid, v: int)
  {
    exists i, j :: 0 <= i < |g| && 0 <= j < |g[i]| && g[i][j] >= v
  }

  class Board {
    var width: int
    var height: int
    var board: array2<int>
    var tiles: int
    var reached2048: bool
    /** The cells of `board`, row by row. */
    ghost var cells: Grid

    /** The board is square, its array has the recorded size, the size is
        at least 2, and `cells` mirrors the array. */
    ghost predicate Valid()
      reads this, board
    {
      Shaped() && Mirrored()
    }

    /** The board is square, at least 2 by 2, and its array has the
        recorded size, and so do the rows of `cells`. */
    ghost predicate Shaped()
      reads this, board
    {
      width == height && width > 1 && board.Length0 == height && board.Length1 == width &&
      |cells| == height && forall i :: 0 <= i < |cells| ==> |cells[i]| == width
    }

    /** `cells` holds what the array holds. */
    ghost predicate Mirrored()
      reads this, board
      requires Shaped()
    {
      forall i, j :: 0 <= i < height && 0 <= j < width ==> cells[i][j] == board[i, j]
    }

    /** `tiles` counts the non-empty cells. */
    ghost predicate TilesCounted()
      reads this
    {
      tiles == CountTiles(cells)
    }

    /** An empty size-by-size board. Sizes below 2 are refused by Create. */
    constructor (size: int)
      requires size > 1
      ensures Valid() && fresh(board) && width == size
      ensures cells == seq(size, _ => Zeros(size))
      ensures tiles == 0 && !reached2048 && TilesCounted()
    {
      width, height := size, size;
      board := new int[size, size]((_, _) => 0);
      tiles := 0;
      reached2048 := false;
      cells := seq(size, _ => Zeros(size));
      CountTilesEmpty(size, size);
    }

    /** Construction, with the size check that throws for sizes of at most 1. */
    static method Create(size: int) returns (r: Result<Board>)
      ensures r.Err? <==> size <= 1
      ensures r.Err? ==> r.error == InvalidSize
      ensures r.Ok? ==> fresh(r.value) && fresh(r.value.board) && r.value.Valid() && r.value.width == size
      ensures r.Ok? ==> r.value.cells == seq(size, _ => Zeros(size))
      ensures r.Ok? ==> r.value.tiles == 0 && !r.value.reached2048 && r.value.TilesCounted()
    {
      if size <= 1 {
        return Err(InvalidSize);
      }
      var b := new Board(size);
      return Ok(b);
    }

    /** The side length of the board. */
    function GetSize(): (n: int)
      reads this, board
      requires Valid()
      ensures n == |cells| && n > 1
    {
      height
    }

    /** Whether a 2048 tile has been made or seeded. */
    function Reached2048(): (r: bool)
      reads this
      ensures r <==> reached2048
    {
      reached2048
    }

    /** Adopts the given array as the board, after checking that it is
        square and at least 2 by 2, and recounts its tiles. The flag is set
        if some cell holds 2048 or more, and never cleared. */
    method SetBoard(m: array2<int>) returns (r: Outcome)
      requires Valid()
      modifies this
      ensures r == Fail(NoRows) <==> m.Length0 == 0
      ensures r == Fail(NotSquare) <==> 0 < m.Length0 && m.Length0 != m.Length1
      ensures r == Fail(InvalidSize) <==> m.Length0 == m.Length1 <= 1 && 0 < m.Length0
      ensures r.Fail? ==> unchanged(this)
      ensures r.Pass? ==> Valid() && board == m && width == m.Length0
      ensures r.Pass? ==> cells == Snapshot(m) && TilesCounted()
      ensures r.Pass? ==> reached2048 == (old(reached2048) || HasTileFrom(cells, 2048))
    {
      if m.Length0 == 0 {
        return Fail(NoRows);
      }
      if m.Length0 != m.Length1 {
        return Fail(NotSquare);
      }
      if m.Length0 <= 1 {
        return Fail(InvalidSize);
      }
      board := m;
      width, height := m.Length0, m.Length0;
      cells := Snapshot(m);
      Recount();
      return Pass;
    }

    /** The counting loops of setBoard: tiles becomes the number of
        non-empty cells, and the flag is set if a cell holds 2048 or more. */
    method Recount()
      requires Valid()
      modifies this`tiles, this`reached2048
      ensures TilesCounted()
      ensures reached2048 == (old(reached2048) || HasTileFrom(cells, 2048))
    {
      var n := width;
      ghost var g := cells;
      tiles := 0;
      for row := 0 to n
        invariant tiles == CountTiles(g[..row])
        invariant reached2048 == (old(reached2048) ||
          exists i, j :: 0 <= i < row && 0 <= j < n && g[i][j] >= 2048)
      {
        for col := 0 to n
          invariant tiles == CountTiles(g[..row]) + CountNZ(g[row][..col])
          invariant reached2048 == (old(reached2048) ||
            (exists i, j :: 0 <= i < row && 0 <= j < n && g[i][j] >= 2048) ||
            (exists j :: 0 <= j < col && g[row][j] >= 2048))
        {
          CountNZSnoc(g[row], col);
          if board[row, col] != 0 {
            tiles := tiles + 1;
          }
          if board[row, col] >= 2048 {
            reached2048 := true;
          }
        }
        assert g[row][..n] == g[row];
        CountTilesSnoc(g, row);
      }
      assert g[..n] == g;
    }

    /** Whether the cell at row-major index `index` is empty. */
    ghost predicate FreeAt(index: int)
      reads this, board
      requires Valid() && 0 <= index < width * height
    {
      board[IndexRow(index, width), IndexCol(index, width)] == 0
    }

    /** The rejection sampling of spawnRandom: the first draw that lands on an
        empty cell. */
    method FirstFreeDraw(draws: seq<int>) returns (q: nat)
      requires Valid()
      requires forall q :: 0 <= q < |draws| ==> 0 <= draws[q] < width * height
      requires exists q :: 0 <= q < |draws| && FreeAt(draws[q])
      ensures q < |draws| && FreeAt(draws[q])
      ensures forall q' :: 0 <= q' < q ==> !FreeAt(draws[q'])
    {
      q := 0;
      var index := draws[q];
      while board[IndexRow(index, width), IndexCol(index, width)] != 0
        invariant 0 <= q < |draws| && index == draws[q]
        invariant forall q' :: 0 <= q' < q ==> !FreeAt(draws[q'])
        invariant exists q' :: q <= q' < |draws| && FreeAt(draws[q'])
        decreases |draws| - q
      {
        q := q + 1;
        index := draws[q];
      }
    }

    /** Places a 2 (coin 0) or a 4 (coin 1) on the first drawn cell that is
        empty; draws are row-major indices. */
    method SpawnRandom(coin: int, draws: seq<int>)
      requires Valid()
      requires coin == 0 || coin == 1
      requires forall q :: 0 <= q < |draws| ==> 0 <= draws[q] < width * height
      requires exists q :: 0 <= q < |draws| && FreeAt(draws[q])
      modifies this`tiles, this`cells, board
      ensures Valid()
      ensures tiles == old(tiles) + 1
      ensures old(TilesCounted()) ==> TilesCounted()
      ensures exists q ::
                0 <= q < |draws| && old(FreeAt(draws[q])) &&
                (forall q' :: 0 <= q' < q ==> !old(FreeAt(draws[q']))) &&
                cells == Place(old(cells), IndexRow(draws[q], width), IndexCol(draws[q], width), (coin + 1) * 2)
    {
      var value := (coin + 1) * 2;
      var q := FirstFreeDraw(draws);
      var row, col := IndexRow(draws[q], width), IndexCol(draws[q], width);
      SetCell(row, col, value);
      tiles := tiles + 1;
    }

    /** The game is over when every cell holds a tile and no two adjacent
        cells are equal. */
    method IsGameOver() returns (over: bool)
      requires Valid()
      ensures over == (tiles == width * height && NoEqualNeighbours(cells))
    {
      if tiles == width * height {
        for row := 0 to height
          invariant forall i: nat, j: nat :: i < row && j < width ==> DiffersFromNeighbours(cells, i, j)
        {
          for col := 0 to width
            invariant forall i: nat, j: nat :: (i < row && j < width) || (i == row && j < col) ==>
              DiffersFromNeighbours(cells, i, j)
          {
            if row > 0 && board[row, col] == board[row - 1, col] {
              assert !DiffersFromNeighbours(cells, row, col);
              return false;
            } else if col > 0 && board[row, col] == board[row, col - 1] {
              assert !DiffersFromNeighbours(cells, row, col);
              return false;
            }
          }
        }
        return true;
      }
      return false;
    }

    /** Writes one cell; the tile count of the board changes as the old and
        the new value of that cell say. */
    method SetCell(r: int, c: int, v: int)
      requires Valid() && 0 <= r < width && 0 <= c < width
      modifies this`cells, board
      ensures Valid()
      ensures cells == Place(old(cells), r, c, v)
      ensures CountTiles(cells) == CountTiles(old(cells))
        + (if v != 0 then 1 else 0) - (if old(cells[r][c]) != 0 then 1 else 0)
    {
      ghost var before := cells;
      board[r, c] := v;
      cells := Place(cells, r, c, v);
      CountUpdate(before, cells, r, c);
    }

    /** Writes position p of line `line` in direction d. */
    method WriteLine(d: Direction, line: nat, p: nat, v: int, ghost g0: Grid)
      requires Valid() && line < width && p < width
      requires SameOffLine(g0, cells, d, line)
      modifies this`cells, board
      ensures Valid()
      ensures SameOffLine(g0, cells, d, line)
      ensures Line(cells, d, line) == old(Line(cells, d, line))[p := v]
      ensures CountTiles(cells) == old(CountTiles(cells))
        + (if v != 0 then 1 else 0) - (if old(Line(cells, d, line))[p] != 0 then 1 else 0)
    {
      ghost var before := cells;
      var n := width;
      SetCell(RowOf(d, n, line, p), ColOf(d, n, line, p), v);
      PlaceLine(before, d, line, p, v);
      SameOffLineTrans(g0, before, cells, d, line);
    }

    /** The collide step of the scan: the tile at position k of the line
        equals `previous`, the tile just before the free slot `base`; that
        tile doubles and position k empties. */
    method Collide(d: Direction, line: nat, base: nat, k: nat, previous: int, ghost g0: Grid)
      requires Valid() && line < width && 0 < base <= k < width
      requires SameOffLine(g0, cells, d, line)
      requires previous != 0 && Line(cells, d, line)[base - 1] == previous && Line(cells, d, line)[k] == previous
      modifies this`tiles, this`reached2048, this`cells, board
      ensures Valid() && SameOffLine(g0, cells, d, line)
      ensures Line(cells, d, line) == old(Line(cells, d, line))[base - 1 := previous * 2][k := 0]
      ensures CountTiles(cells) == old(CountTiles(cells)) - 1 && tiles == old(tiles) - 1
      ensures reached2048 == (old(reached2048) || previous == 1024)
    {
      WriteLine(d, line, base - 1, previous * 2, g0);
      assert Line(cells, d, line)[k] == previous;
      WriteLine(d, line, k, 0, g0);
      reached2048 := reached2048 || previous == 1024;
      tiles := tiles - 1;
    }

    /** The slide step of the scan: the tile `square` at position k of the
        line moves to the free slot `base`. */
    method MoveTile(d: Direction, line: nat, base: nat, k: nat, square: int, ghost g0: Grid)
      requires Valid() && line < width && base < k < width
      requires SameOffLine(g0, cells, d, line)
      requires Line(cells, d, line)[base] == 0 && Line(cells, d, line)[k] == square
      modifies this`cells, board
      ensures Valid() && SameOffLine(g0, cells, d, line)
      ensures Line(cells, d, line) == old(Line(cells, d, line))[base := square][k := 0]
      ensures CountTiles(cells) == old(CountTiles(cells))
    {
      WriteLine(d, line, base, square, g0);
      WriteLine(d, line, k, 0, g0);
    }

    /** One iteration of the scan of a line, reading position k: an empty
        cell is skipped; a tile equal to `previous`, the last tile placed
        and not yet merged, merges into it at base - 1, and the tile count
        drops by one; any other tile moves to the next free slot `base`.
        The iteration does to the scan variables what Step says. */
    method ScanCell(d: Direction, line: nat, k: nat, base: nat, previous: int, ghost p: Progress, ghost g0: Grid)
      returns (base': nat, previous': int, wrote: bool, merged: bool, square: int)
      requires Valid() && line < width && k < width && |p.cells| == width
      requires Ready(p, k) && p.base == base && p.previous == previous
      requires Line(cells, d, line) == p.cells && SameOffLine(g0, cells, d, line)
      modifies this`tiles, this`reached2048, this`cells, board
      ensures Valid() && SameOffLine(g0, cells, d, line)
      ensures Line(cells, d, line) == Step(p, k).cells
      ensures base' == Step(p, k).base && previous' == Step(p, k).previous
      ensures Step(p, k).moved == (p.moved || wrote)
      ensures Step(p, k).merged == if merged then p.merged + {square} else p.merged
      ensures reached2048 == (old(reached2048) || (merged && square == 1024))
      ensures tiles - CountTiles(cells) == old(tiles) - old(CountTiles(cells))
    {
      var n := width;
      base', previous', wrote, merged := base, previous, false, false;
      square := board[RowOf(d, n, line, k), ColOf(d, n, line, k)];
      assert square == p.cells[k];
      if square == 0 {
        return;
      }
      if square == previous {
        // collide: the tile merges into the one before `base`
        assert 0 < base <= k && p.cells[base - 1] == previous;
        Collide(d, line, base, k, previous, g0);
        assert Step(p, k).cells == p.cells[base - 1 := previous * 2][k := 0];
        previous' := 0;
        wrote, merged := true, true;
        return;
      }
      // slide: the tile moves to `base`
      if k != base {
        MoveTile(d, line, base, k, square, g0);
        assert Step(p, k).cells == p.cells[base := square][k := 0];
        wrote := true;
      }
      previous' := square;
      base' := base + 1;
    }

    /** The state of the scan of line `line` in direction d once it has
        read positions 0 to k - 1, where s is the line as it was, base and
        previous are the scan's variables, g0 is the board before the scan,
        and t0 and r0 are the tile counter and 2048 flag before it. */
    ghost predicate Scanning(d: Direction, line: nat, s: seq<int>, k: nat, base: int, previous: int,
                             moved0: bool, moved: bool, g0: Grid, t0: int, r0: bool)
      reads this, board
    {
      Valid() && line < width && |s| == width && k <= width &&
      base == Scan(s, k).base && previous == Scan(s, k).previous &&
      Line(cells, d, line) == Scan(s, k).cells && SameOffLine(g0, cells, d, line) &&
      moved == (moved0 || Scan(s, k).moved) &&
      reached2048 == (r0 || 1024 in Scan(s, k).merged) &&
      tiles - CountTiles(cells) == t0 - CountTiles(g0)
    }

    /** Before the scan reads anything, the line is as it was. */
    lemma ScanStarts(d: Direction, line: nat, s: seq<int>, moved0: bool)
      requires Valid() && line < width && Line(cells, d, line) == s
      ensures Scanning(d, line, s, 0, 0, 0, moved0, moved0, cells, tiles, reached2048)
    {
    }

    /** Once the scan has read the whole line, the line is its collapse. */
    lemma ScanEnds(d: Direction, line: nat, s: seq<int>, base: int, previous: int,
                   moved0: bool, moved: bool, g0: Grid, t0: int, r0: bool)
      requires Scanning(d, line, s, |s|, base, previous, moved0, moved, g0, t0, r0)
      ensures Valid() && Line(cells, d, line) == Collapse(s) && SameOffLine(g0, cells, d, line)
      ensures moved == (moved0 || Collapse(s) != s)
      ensures reached2048 == (r0 || MergesValue(NonZero(s), 1024))
      ensures tiles - CountTiles(cells) == t0 - CountTiles(g0)
    {
      ScanComplete(s);
    }

    /** One iteration of the scan, carrying the scan's state forward. */
    method ScanNext(d: Direction, line: nat, k: nat, base: nat, previous: int, moved: bool, ghost s: seq<int>,
                    ghost moved0: bool, ghost g0: Grid, ghost t0: int, ghost r0: bool)
        returns (base': nat, previous': int, moved': bool)
      requires k < width && Scanning(d, line, s, k, base, previous, moved0, moved, g0, t0, r0)
      modifies this`tiles, this`reached2048, this`cells, board
      ensures Scanning(d, line, s, k + 1, base', previous', moved0, moved', g0, t0, r0)
    {
      ghost var p := Scan(s, k);
      ScanReady(s, k);
      assert Scan(s, k + 1) == Step(p, k);
      var wrote, merged, square;
      base', previous', wrote, merged, square := ScanCell(d, line, k, base, previous, p, g0);
      moved' := moved || wrote;
    }

    /** The scan of one line in direction d, from its near end, as one pass
        of the inner loop of moveUp, moveDown, moveLeft or moveRight. The
        line becomes its collapse and nothing off the line changes. */
    method ScanLine(d: Direction, line: nat, moved0: bool, ghost s: seq<int>) returns (moved: bool)
      requires Valid() && line < width
      requires Line(cells, d, line) == s
      modifies this`tiles, this`reached2048, this`cells, board
      ensures Valid()
      ensures Line(cells, d, line) == Collapse(s)
      ensures SameOffLine(old(cells), cells, d, line)
      ensures moved == (moved0 || Collapse(s) != s)
      ensures reached2048 == (old(reached2048) || MergesValue(NonZero(s), 1024))
      ensures tiles - CountTiles(cells) == old(tiles) - CountTiles(old(cells))
    {
      var n := width;
      ghost var g0, t0, r0 := cells, tiles, reached2048;
      ScanStarts(d, line, s, moved0);
      moved := moved0;
      var base, previous := 0, 0;
      for k := 0 to n
        invariant n == width && Scanning(d, line, s, k, base, previous, moved0, moved, g0, t0, r0)
      {
        base, previous, moved := ScanNext(d, line, k, base, previous, moved, s, moved0, g0, t0, r0);
      }
      ScanEnds(d, line, s, base, previous, moved0, moved, g0, t0, r0);
    }

    /** The state of a move in direction d of the board g0 once its first
        `count` lines have been moved, starting from tile counter t0 and
        2048 flag r0. */
    ghost predicate Sliding(d: Direction, g0: Grid, count: nat, moved: bool, t0: int, r0: bool)
      reads this, board
    {
      Valid() && |g0| == width && IsSquare(g0) && count <= width &&
      cells == Partial(d, g0, count) &&
      (moved <==> SomeLineChanges(d, g0, count)) &&
      reached2048 == (r0 || SomeLineMerges(d, g0, count, 1024)) &&
      tiles - CountTiles(cells) == t0 - CountTiles(g0)
    }

    /** Before any line has moved, the board is as it was. */
    lemma SlideStarts(d: Direction)
      requires Valid()
      ensures Sliding(d, cells, 0, false, tiles, reached2048)
    {
      PartialBounds(d, cells);
    }

    /** Once every line has moved, the board is the move's result. */
    lemma SlideEnds(d: Direction, g0: Grid, moved: bool, t0: int, r0: bool)
      requires Sliding(d, g0, |g0|, moved, t0, r0)
      ensures Valid() && cells == Apply(d, g0) && (moved <==> cells != g0)
      ensures tiles - CountTiles(cells) == t0 - CountTiles(g0)
      ensures reached2048 == (r0 || SomeLineMerges(d, g0, width, 1024))
    {
      PartialBounds(d, g0);
      ApplyChanges(d, g0);
    }

    /** Moves line `line` of a board whose earlier lines in direction d have
        been moved already. */
    method SlideLine(d: Direction, line: nat, moved0: bool, ghost g0: Grid, ghost t0: int, ghost r0: bool)
        returns (moved: bool)
      requires Sliding(d, g0, line, moved0, t0, r0) && line < width
      modifies this`tiles, this`reached2048, this`cells, board
      ensures Sliding(d, g0, line + 1, moved, t0, r0)
    {
      PartialLine(d, g0, line);
      moved := ScanLine(d, line, moved0, Line(g0, d, line));
      PartialStep(d, g0, cells, line);
      SomeLineChangesStep(d, g0, line);
    }

    /** One directional move: every line in direction d is scanned, and the
        result says whether any cell changed. */
    method Slide(d: Direction) returns (moved: bool)
      requires Valid()
      modifies this`tiles, this`reached2048, this`cells, board
      ensures Valid()
      ensures cells == Apply(d, old(cells))
      ensures moved <==> cells != old(cells)
      ensures tiles - CountTiles(cells) == old(tiles) - CountTiles(old(cells))
      ensures reached2048 == (old(reached2048) || SomeLineMerges(d, old(cells), width, 1024))
    {
      var n := width;
      ghost var g0, t0, r0 := cells, tiles, reached2048;
      SlideStarts(d);
      moved := false;
      for line := 0 to n
        invariant n == width && Sliding(d, g0, line, moved, t0, r0)
      {
        moved := SlideLine(d, line, moved, g0, t0, r0);
      }
      SlideEnds(d, g0, moved, t0, r0);
    }
  
    /** moveUp: every column slides and merges towards row 0. */
    method MoveUp() returns (moved: bool)
      requires Valid()
      modifies this`tiles, this`reached2048, this`cells, board
      ensures Valid() && cells == Apply(Up, old(cells)) && (moved <==> cells != old(cells))
      ensures tiles - CountTiles(cells) == old(tiles) - CountTiles(old(cells))
      ensures old(TilesCounted()) ==> TilesCounted()
      ensures reached2048 == (old(reached2048) || SomeLineMerges(Up, old(cells), width, 1024))
    {
      moved := Slide(Up);
    }

    /** moveDown: every column slides and merges towards the last row. */
    method MoveDown() returns (moved: bool)
      requires Valid()
      modifies this`tiles, this`reached2048, this`cells, board
      ensures Valid() && cells == Apply(Down, old(cells)) && (moved <==> cells != old(cells))
      ensures tiles - CountTiles(cells) == old(tiles) - CountTiles(old(cells))
      ensures old(TilesCounted()) ==> TilesCounted()
      ensures reached2048 == (old(reached2048) || SomeLineMerges(Down, old(cells), width, 1024))
    {
      moved := Slide(Down);
    }

    /** moveRight: every row slides and merges towards the last column. */
    method MoveRight() returns (moved: bool)
      requires Valid()
      modifies this`tiles, this`reached2048, this`cells, board
      ensures Valid() && cells == Apply(Right, old(cells)) && (moved <==> cells != old(cells))
      ensures tiles - CountTiles(cells) == old(tiles) - CountTiles(old(cells))
      ensures old(TilesCounted()) ==> TilesCounted()
      ensures reached2048 == (old(reached2048) || SomeLineMerges(Right, old(cells), width, 1024))
    {
      moved := Slide(Right);
    }

    /** moveLeft: every row slides and merges towards column 0. */
    method MoveLeft() returns (moved: bool)
      requires Valid()
      modifies this`tiles, this`reached2048, this`cells, board
      ensures Valid() && cells == Apply(Left, old(cells)) && (moved <==> cells != old(cells))
      ensures tiles - CountTiles(cells) == old(tiles) - CountTiles(old(cells))
      ensures old(TilesCounted()) ==> TilesCounted()
      ensures reached2048 == (old(reached2048) || SomeLineMerges(Left, old(cells), width, 1024))
    {
      moved := Slide(Left);
    }
  }
}
