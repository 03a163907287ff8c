/** The whole square board as rows of cells, the four directions, and how
    a directional move acts on it: line by line, through Lines.Collapse. */
module Grids {
  import opened Lines

  datatype Direction = Up | Down | Left | Right

  /** Rows of cells; g[i][j] is row i, column j. */
  type Grid = seq<seq<int>>

  ghost predicate IsSquare(g: Grid)
  {
    forall i :: 0 <= i < |g| ==> |g[i]| == |g|
  }

  // ---------------------------------------------------------------------
  // Geometry. For direction d, line `line` is the row (Left, Right) or the
  // column (Up, Down) of that index, and position p counts from the end the
  // tiles move towards: position 0 of a line moved Right is its last column.

  function RowOf(d: Direction, n: nat, line: nat, p: nat): (r: nat)
    requires line < n && p < n
    ensures r < n
  {
    match d
    case Left => line
    case Right => line
    case Up => p
    case Down => n - 1 - p
  }

  function ColOf(d: Direction, n: nat, line: nat, p: nat): (c: nat)
    requires line < n && p < n
    ensures c < n
  {
    match d
    case Left => p
    case Right => n - 1 - p
    case Up => line
    case Down => line
  }

  /** The line that cell (i, j) belongs to. */
  function LineOf(d: Direction, i: nat, j: nat): nat
  {
    if d == Left || d == Right then i else j
  }

  /** The position of cell (i, j) within its line. */
  function PosOf(d: Direction, n: nat, i: nat, j: nat): (p: nat)
    requires i < n && j < n
    ensures p < n
  {
    match d
    case Left => j
    case Right => n - 1 - j
    case Up => i
    case Down => n - 1 - i
  }

  /** Cells and (line, position) pairs correspond one to one. */
  lemma Coordinates(d: Direction, n: nat)
    ensures forall line: nat, p: nat :: line < n && p < n ==>
      LineOf(d, RowOf(d, n, line, p), ColOf(d, n, line, p)) == line &&
      PosOf(d, n, RowOf(d, n, line, p), ColOf(d, n, line, p)) == p
    ensures forall i: nat, j: nat :: i < n && j < n ==>
      RowOf(d, n, LineOf(d, i, j), PosOf(d, n, i, j)) == i &&
      ColOf(d, n, LineOf(d, i, j), PosOf(d, n, i, j)) == j
  {
  }

  /** Line `line` of g in direction d, in scan order. */
  function Line(g: Grid, d: Direction, line: nat): (r: seq<int>)
    requires IsSquare(g) && line < |g|
    ensures |r| == |g|
    ensures forall p :: 0 <= p < |g| ==> r[p] == g[RowOf(d, |g|, line, p)][ColOf(d, |g|, line, p)]
  {
    seq(|g|, p requires 0 <= p < |g| => g[RowOf(d, |g|, line, p)][ColOf(d, |g|, line, p)])
  }

  function Reverse(s: seq<int>): (r: seq<int>)
    ensures |r| == |s|
  {
    seq(|s|, i requires 0 <= i < |s| => s[|s| - 1 - i])
  }

  function Column(g: Grid, c: nat): (r: seq<int>)
    requires IsSquare(g) && c < |g|
    ensures |r| == |g|
  {
    seq(|g|, i requires 0 <= i < |g| => g[i][c])
  }

  /** Moving left reads each row left to right, moving right reads it right
      to left, moving up reads each column top to bottom, moving down reads
      it bottom to top. */
  lemma LineExtraction(g: Grid, line: nat)
    requires IsSquare(g) && line < |g|
    ensures Line(g, Left, line) == g[line]
    ensures Line(g, Right, line) == Reverse(g[line])
    ensures Line(g, Up, line) == Column(g, line)
    ensures Line(g, Down, line) == Reverse(Column(g, line))
  {
  }

  /** The board after a move in direction d: every line collapsed towards
      its near end. */
  function Apply(d: Direction, g: Grid): (r: Grid)
    requires IsSquare(g)
    ensures |r| == |g| && IsSquare(r)
  {
    var n := |g|;
    seq(n, i requires 0 <= i < n =>
      seq(n, j requires 0 <= j < n =>
        Collapse(Line(g, d, LineOf(d, i, j)))[PosOf(d, n, i, j)]))
  }

  /** Each line in the move's direction becomes its own collapse, and is
      computed from that line alone. */
  lemma ApplyLine(d: Direction, g: Grid, line: nat)
    requires IsSquare(g) && line < |g|
    ensures Line(Apply(d, g), d, line) == Collapse(Line(g, d, line))
  {
    Coordinates(d, |g|);
  }

  lemma ReverseReverse(s: seq<int>)
    ensures Reverse(Reverse(s)) == s
  {
  }

  /** moveLeft collapses each row, moveRight collapses each row read from
      the right; moveUp and moveDown do the same to each column. */
  lemma MovesByLine(g: Grid, line: nat)
    requires IsSquare(g) && line < |g|
    ensures Apply(Left, g)[line] == Collapse(g[line])
    ensures Apply(Right, g)[line] == Reverse(Collapse(Reverse(g[line])))
    ensures Column(Apply(Up, g), line) == Collapse(Column(g, line))
    ensures Column(Apply(Down, g), line) == Reverse(Collapse(Reverse(Column(g, line))))
  {
    LineExtraction(g, line);
    LineExtraction(Apply(Left, g), line);
    LineExtraction(Apply(Right, g), line);
    LineExtraction(Apply(Up, g), line);
    LineExtraction(Apply(Down, g), line);
    ApplyLine(Left, g, line);
    ApplyLine(Right, g, line);
    ApplyLine(Up, g, line);
    ApplyLine(Down, g, line);
    ReverseReverse(Apply(Right, g)[line]);
    ReverseReverse(Column(Apply(Down, g), line));
  }

  lemma GridsEqual(g: Grid, h: Grid)
    requires IsSquare(g) && IsSquare(h) && |g| == |h|
    requires forall i, j :: 0 <= i < |g| && 0 <= j < |g| ==> g[i][j] == h[i][j]
    ensures g == h
  {
    forall i | 0 <= i < |g|
      ensures g[i] == h[i]
    {
    }
  }

  /** Row of the row-major index `index` of an n-by-n board. */
  function IndexRow(index: int, n: nat): (r: nat)
    requires 0 <= index < n * n
    ensures r < n
  {
    DivBound(index, n);
    index / n
  }

  lemma DivBound(index: int, n: nat)
    requires 0 <= index < n * n
    ensures 0 <= index / n < n
  {
    var q := index / n;
    assert n * q + index % n == index;
    assert n * (n - q) > 0;
  }

  /** Column of the row-major index `index` of an n-by-n board. */
  function IndexCol(index: int, n: nat): (c: nat)
    requires 0 <= index < n * n
    ensures c < n
  {
    index % n
  }

  /** The board with value v written into cell (r, c). */
  function Place(g: Grid, r: nat, c: nat, v: int): (h: Grid)
    requires r < |g| && c < |g[r]|
  {
    g[r := g[r][c := v]]
  }

  // ---------------------------------------------------------------------
  // A move performed one line at a time.

  /** g and h agree on every cell outside line `line` of direction d. */
  ghost predicate SameOffLine(g: Grid, h: Grid, d: Direction, line: nat)
  {
    IsSquare(g) && IsSquare(h) && |g| == |h| &&
    forall i: nat, j: nat :: i < |g| && j < |g| && LineOf(d, i, j) != line ==> g[i][j] == h[i][j]
  }

  /** Writing position p of a line changes that position of the line and
      nothing off the line. */
  lemma PlaceLine(g: Grid, d: Direction, line: nat, p: nat, v: int)
    requires IsSquare(g) && line < |g| && p < |g|
    ensures var h := Place(g, RowOf(d, |g|, line, p), ColOf(d, |g|, line, p), v);
      IsSquare(h) && |h| == |g| &&
      Line(h, d, line) == Line(g, d, line)[p := v] &&
      SameOffLine(g, h, d, line)
  {
    var n := |g|;
    Coordinates(d, n);
    var h := Place(g, RowOf(d, n, line, p), ColOf(d, n, line, p), v);
    assert Line(h, d, line) == Line(g, d, line)[p := v];
  }

  lemma SameOffLineTrans(g: Grid, h: Grid, k: Grid, d: Direction, line: nat)
    requires SameOffLine(g, h, d, line) && SameOffLine(h, k, d, line)
    ensures SameOffLine(g, k, d, line)
  {
  }

  /** The board after the first `count` lines of g have been moved. */
  function Partial(d: Direction, g: Grid, count: nat): (r: Grid)
    requires IsSquare(g)
    ensures |r| == |g| && IsSquare(r)
  {
    var n := |g|;
    seq(n, i requires 0 <= i < n =>
      seq(n, j requires 0 <= j < n =>
        if LineOf(d, i, j) < count then Apply(d, g)[i][j] else g[i][j]))
  }

  /** No line moved is the board itself; all lines moved is the move. */
  lemma PartialBounds(d: Direction, g: Grid)
    requires IsSquare(g)
    ensures Partial(d, g, 0) == g
    ensures Partial(d, g, |g|) == Apply(d, g)
  {
    var n := |g|;
    Coordinates(d, n);
    GridsEqual(Partial(d, g, 0), g);
    GridsEqual(Partial(d, g, n), Apply(d, g));
  }

  /** A line not yet moved is as it was. */
  lemma PartialLine(d: Direction, g: Grid, line: nat)
    requires IsSquare(g) && line < |g|
    ensures Line(Partial(d, g, line), d, line) == Line(g, d, line)
  {
    Coordinates(d, |g|);
  }

  /** Collapsing the next line of a partly moved board moves one more line. */
  lemma PartialStep(d: Direction, g: Grid, h: Grid, line: nat)
    requires IsSquare(g) && line < |g|
    requires SameOffLine(Partial(d, g, line), h, d, line)
    requires Line(h, d, line) == Collapse(Line(g, d, line))
    ensures h == Partial(d, g, line + 1)
  {
    var n := |g|;
    Coordinates(d, n);
    forall i, j | 0 <= i < n && 0 <= j < n
      ensures h[i][j] == Partial(d, g, line + 1)[i][j]
    {
      if LineOf(d, i, j) == line {
        var p := PosOf(d, n, i, j);
        assert h[i][j] == Line(h, d, line)[p];
        assert Apply(d, g)[i][j] == Collapse(Line(g, d, line))[p];
      }
    }
    GridsEqual(h, Partial(d, g, line + 1));
  }

  // ---------------------------------------------------------------------
  // Whether a move changes the board, and whether it merges two v-tiles.

  /** Line `line` of direction d is left as it is by a move. */
  ghost predicate Settled(d: Direction, g: Grid, line: nat)
    requires IsSquare(g) && line < |g|
  {
    Collapse(Line(g, d, line)) == Line(g, d, line)
  }

  /** Some line among the first `count` changes when collapsed. */
  ghost predicate SomeLineChanges(d: Direction, g: Grid, count: nat)
    requires IsSquare(g) && count <= |g|
  {
    exists line :: 0 <= line < count && !Settled(d, g, line)
  }

  /** Extending the range of lines by one adds exactly that line's change. */
  lemma SomeLineChangesStep(d: Direction, g: Grid, count: nat)
    requires IsSquare(g) && count < |g|
    ensures SomeLineChanges(d, g, count + 1) <==> SomeLineChanges(d, g, count) || !Settled(d, g, count)
  {
    if SomeLineChanges(d, g, count + 1) && Settled(d, g, count) {
      var line :| 0 <= line < count + 1 && !Settled(d, g, line);
      assert line < count;
    }
  }

  /** Some line among the first `count` merges a pair of v-tiles. */
  ghost predicate SomeLineMerges(d: Direction, g: Grid, count: nat, v: int)
    requires IsSquare(g) && count <= |g|
  {
    count > 0 &&
    (MergesValue(NonZero(Line(g, d, count - 1)), v) || SomeLineMerges(d, g, count - 1, v))
  }

  /** A board that a move leaves unchanged has every line unchanged. */
  lemma UnchangedLines(d: Direction, g: Grid, line: nat)
    requires IsSquare(g) && line < |g| && Apply(d, g) == g
    ensures Settled(d, g, line)
  {
    ApplyLine(d, g, line);
  }

  /** When every line is unchanged, so is the board. */
  lemma UnchangedBoard(d: Direction, g: Grid)
    requires IsSquare(g)
    requires forall line :: 0 <= line < |g| ==> Settled(d, g, line)
    ensures Apply(d, g) == g
  {
    var n := |g|;
    Coordinates(d, n);
    forall i, j | 0 <= i < n && 0 <= j < n
      ensures Apply(d, g)[i][j] == g[i][j]
    {
      var line, p := LineOf(d, i, j), PosOf(d, n, i, j);
      assert Settled(d, g, line);
      assert Collapse(Line(g, d, line))[p] == Line(g, d, line)[p];
    }
    GridsEqual(Apply(d, g), g);
  }

  /** A move changes the board exactly when it changes some line. */
  lemma ApplyChanges(d: Direction, g: Grid)
    requires IsSquare(g)
    ensures Apply(d, g) != g <==> SomeLineChanges(d, g, |g|)
  {
    if Apply(d, g) == g {
      forall line | 0 <= line < |g|
        ensures Settled(d, g, line)
      {
        UnchangedLines(d, g, line);
      }
    } else if !SomeLineChanges(d, g, |g|) {
      UnchangedBoard(d, g);
    }
  }

  /** When a move merges two v-tiles, the board afterwards holds a 2v-tile. */
  lemma {:induction false} MergedTileAppears(d: Direction, g: Grid, count: nat, v: int)
    requires IsSquare(g) && count <= |g|
    requires SomeLineMerges(d, g, count, v)
    ensures exists i, j :: 0 <= i < |g| && 0 <= j < |g| && Apply(d, g)[i][j] == 2 * v
  {
    if MergesValue(NonZero(Line(g, d, count - 1)), v) {
      var line := count - 1;
      MergesValueResult(NonZero(Line(g, d, line)), v);
      var m := Merge(NonZero(Line(g, d, line)));
      var p :| 0 <= p < |m| && m[p] == 2 * v;
      ApplyLine(d, g, line);
      assert Collapse(Line(g, d, line))[p] == 2 * v;
      var i, j := RowOf(d, |g|, line, p), ColOf(d, |g|, line, p);
      assert Apply(d, g)[i][j] == Line(Apply(d, g), d, line)[p];
    } else {
      MergedTileAppears(d, g, count - 1, v);
    }
  }

  // ---------------------------------------------------------------------
  // What a move preserves, line by line.

  /** After a move, each line in its direction has all its tiles at the
      near end and empty cells after them. */
  lemma MoveCompacts(d: Direction, g: Grid, line: nat)
    requires IsSquare(g) && line < |g|
    ensures Compact(Line(Apply(d, g), d, line))
  {
    ApplyLine(d, g, line);
    CollapseCompact(Line(g, d, line));
  }

  /** A move keeps the sum of each line in its direction. */
  lemma MoveKeepsLineSum(d: Direction, g: Grid, line: nat)
    requires IsSquare(g) && line < |g|
    ensures Sum(Line(Apply(d, g), d, line)) == Sum(Line(g, d, line))
  {
    ApplyLine(d, g, line);
    CollapseSum(Line(g, d, line));
  }

  /** A board of powers of two stays a board of powers of two. */
  lemma MoveKeepsTiles(d: Direction, g: Grid)
    requires IsSquare(g)
    requires forall i, j :: 0 <= i < |g| && 0 <= j < |g| ==> IsTile(g[i][j])
    ensures forall i, j :: 0 <= i < |g| && 0 <= j < |g| ==> IsTile(Apply(d, g)[i][j])
  {
    var n := |g|;
    Coordinates(d, n);
    forall i, j | 0 <= i < n && 0 <= j < n
      ensures IsTile(Apply(d, g)[i][j])
    {
      var line := LineOf(d, i, j);
      CollapseTiles(Line(g, d, line));
    }
  }

  // ---------------------------------------------------------------------
  // Counting tiles over the whole board.

  function CountTiles(g: Grid): nat
  {
    if g == [] then 0 else CountNZ(g[0]) + CountTiles(g[1..])
  }

  lemma {:induction false} CountTilesConcat(a: Grid, b: Grid)
    ensures CountTiles(a + b) == CountTiles(a) + CountTiles(b)
  {
    if a == [] {
      assert a + b == b;
    } else {
      assert (a + b)[1..] == a[1..] + b;
      CountTilesConcat(a[1..], b);
    }
  }

  lemma CountTilesSnoc(g: Grid, k: nat)
    requires k < |g|
    ensures CountTiles(g[..k + 1]) == CountTiles(g[..k]) + CountNZ(g[k])
  {
    assert g[..k + 1] == g[..k] + [g[k]];
    CountTilesConcat(g[..k], [g[k]]);
  }

  /** An empty board has no tiles. */
  lemma {:induction false} CountTilesEmpty(rows: nat, n: nat)
    ensures CountTiles(seq(rows, _ => Zeros(n))) == 0
  {
    if rows > 0 {
      assert seq(rows, _ => Zeros(n))[1..] == seq(rows - 1, _ => Zeros(n));
      CountZeros(n);
      CountTilesEmpty(rows - 1, n);
    }
  }

  /** The effect on the count of changing one cell of a line. */
  lemma {:induction false} CountNZUpdate(s: seq<int>, u: seq<int>, c: int)
    requires |s| == |u|
    requires forall j :: 0 <= j < |s| && j != c ==> s[j] == u[j]
    ensures CountNZ(u) == CountNZ(s)
      + (if 0 <= c < |s| && u[c] != 0 then 1 else 0)
      - (if 0 <= c < |s| && s[c] != 0 then 1 else 0)
  {
    if s != [] {
      CountNZUpdate(s[1..], u[1..], c - 1);
    }
  }

  /** Writing one cell changes the tile count by at most one, as the old and
      new value of that cell say. */
  lemma {:induction false} CountUpdate(g: Grid, h: Grid, r: int, c: int)
    requires |g| == |h|
    requires forall i :: 0 <= i < |g| ==> |g[i]| == |h[i]|
    requires forall i, j :: 0 <= i < |g| && 0 <= j < |g[i]| && (i != r || j != c) ==> g[i][j] == h[i][j]
    ensures CountTiles(h) == CountTiles(g)
      + (if 0 <= r < |g| && 0 <= c < |g[r]| && h[r][c] != 0 then 1 else 0)
      - (if 0 <= r < |g| && 0 <= c < |g[r]| && g[r][c] != 0 then 1 else 0)
  {
    if g != [] {
      CountNZUpdate(g[0], h[0], if r == 0 then c else -1);
      CountUpdate(g[1..], h[1..], r - 1, c);
    }
  }

  lemma {:induction false} CountNZBound(s: seq<int>)
    ensures CountNZ(s) <= |s|
    ensures CountNZ(s) == |s| ==> forall j :: 0 <= j < |s| ==> s[j] != 0
  {
    if s != [] {
      CountNZBound(s[1..]);
      assert forall j :: 1 <= j < |s| ==> s[j] == s[1..][j - 1];
    }
  }

  lemma {:induction false} CountTilesBound(g: Grid, n: nat)
    requires forall i :: 0 <= i < |g| ==> |g[i]| == n
    ensures CountTiles(g) <= |g| * n
    ensures CountTiles(g) == |g| * n ==> forall i, j :: 0 <= i < |g| && 0 <= j < n ==> g[i][j] != 0
  {
    if g != [] {
      CountNZBound(g[0]);
      CountTilesBound(g[1..], n);
      assert |g| * n == n + (|g| - 1) * n;
      assert forall i :: 1 <= i < |g| ==> g[i] == g[1..][i - 1];
    }
  }

  // ---------------------------------------------------------------------
  // The end of the game.

  predicate IsFull(g: Grid)
    requires IsSquare(g)
  {
    forall i, j :: 0 <= i < |g| && 0 <= j < |g| ==> g[i][j] != 0
  }

  /** Cell (i, j) differs from the cell above it and the cell to its left. */
  predicate DiffersFromNeighbours(g: Grid, i: nat, j: nat)
    requires IsSquare(g) && i < |g| && j < |g|
  {
    (i > 0 ==> g[i][j] != g[i - 1][j]) && (j > 0 ==> g[i][j] != g[i][j - 1])
  }

  /** No two horizontally or vertically adjacent cells are equal. */
  predicate NoEqualNeighbours(g: Grid)
    requires IsSquare(g)
  {
    forall i: nat, j: nat :: i < |g| && j < |g| ==> DiffersFromNeighbours(g, i, j)
  }

  /** Rows of n cells none of which is empty hold n tiles each. */
  lemma {:induction false} CountTilesFull(g: Grid, n: nat)
    requires forall i :: 0 <= i < |g| ==> |g[i]| == n
    requires forall i, j :: 0 <= i < |g| && 0 <= j < n ==> g[i][j] != 0
    ensures CountTiles(g) == |g| * n
  {
    if g != [] {
      CountAllNonZero(g[0]);
      assert forall i :: 1 <= i < |g| ==> g[1..][i - 1] == g[i];
      CountTilesFull(g[1..], n);
      assert |g| * n == n + (|g| - 1) * n;
    }
  }

  /** The tile count is the number of cells exactly when no cell is empty. */
  lemma FullCount(g: Grid)
    requires IsSquare(g)
    ensures CountTiles(g) == |g| * |g| <==> IsFull(g)
  {
    CountTilesBound(g, |g|);
    if IsFull(g) {
      CountTilesFull(g, |g|);
    }
  }

  /** On a full board without equal neighbours every line is packed. */
  lemma StuckLine(d: Direction, g: Grid, line: nat)
    requires IsSquare(g) && line < |g|
    requires IsFull(g) && NoEqualNeighbours(g)
    ensures Packed(Line(g, d, line))
  {
    var s, n := Line(g, d, line), |g|;
    forall p | 0 <= p < n - 1 && s[p] != 0
      ensures s[p] != s[p + 1]
    {
      match d
      case Left => assert DiffersFromNeighbours(g, line, p + 1);
      case Right => assert DiffersFromNeighbours(g, line, n - 1 - p);
      case Up => assert DiffersFromNeighbours(g, p + 1, line);
      case Down => assert DiffersFromNeighbours(g, n - 1 - p, line);
    }
  }

  /** On a full board without equal neighbours no move changes anything. */
  lemma Stuck(d: Direction, g: Grid)
    requires IsSquare(g)
    requires IsFull(g) && NoEqualNeighbours(g)
    ensures Apply(d, g) == g
  {
    forall line | 0 <= line < |g|
      ensures Settled(d, g, line)
    {
      StuckLine(d, g, line);
      CollapseUnchanged(Line(g, d, line));
    }
    ApplyChanges(d, g);
  }

  /** When the tile count fills the board and no neighbours are equal,
      which is what isGameOver tests, no move changes the board. */
  lemma GameOverStuck(d: Direction, g: Grid)
    requires IsSquare(g) && CountTiles(g) == |g| * |g| && NoEqualNeighbours(g)
    ensures Apply(d, g) == g
  {
    FullCount(g);
    Stuck(d, g);
  }

  /** No cell holds a tile. */
  predicate IsEmpty(g: Grid)
    requires IsSquare(g)
  {
    forall i, j :: 0 <= i < |g| && 0 <= j < |g| ==> g[i][j] == 0
  }

  /** On a board without tiles no move changes anything. */
  lemma EmptyStuck(d: Direction, g: Grid)
    requires IsSquare(g) && IsEmpty(g)
    ensures Apply(d, g) == g
  {
    Coordinates(d, |g|);
    forall line | 0 <= line < |g|
      ensures Settled(d, g, line)
    {
      CollapseUnchanged(Line(g, d, line));
    }
    UnchangedBoard(d, g);
  }

  /** Every cell of s is empty, or every cell of s holds a tile. */
  predicate Uniform(s: seq<int>)
  {
    (forall k :: 0 <= k < |s| ==> s[k] == 0) || (forall k :: 0 <= k < |s| ==> s[k] != 0)
  }

  /** A line compacted towards both of its ends is all empty or all tiles:
      read from the other end, a gap before a tile is a tile before a gap. */
  lemma CompactBothWays(s: seq<int>)
    requires Compact(s) && Compact(Reverse(s))
    ensures Uniform(s)
  {
    if gap :| 0 <= gap < |s| && s[gap] == 0 {
      forall k | 0 <= k < |s|
        ensures s[k] == 0
      {
        if k < gap {
          assert Reverse(s)[|s| - 1 - gap] == 0;
          assert Reverse(s)[|s| - 1 - k] == s[k];
        }
      }
    }
  }

  /** Row `line` and column `line` of a board that no move changes are
      both left alone in either direction, so each is packed and uniform. */
  lemma NoMoveLines(g: Grid, line: nat)
    requires IsSquare(g) && line < |g|
    requires Apply(Left, g) == g && Apply(Right, g) == g
    requires Apply(Up, g) == g && Apply(Down, g) == g
    ensures Packed(g[line]) && Uniform(g[line])
    ensures Packed(Column(g, line)) && Uniform(Column(g, line))
  {
    LineExtraction(g, line);
    UnchangedLines(Left, g, line);
    CollapseUnchanged(g[line]);
    UnchangedLines(Right, g, line);
    CollapseUnchanged(Reverse(g[line]));
    UnchangedLines(Up, g, line);
    CollapseUnchanged(Column(g, line));
    UnchangedLines(Down, g, line);
    CollapseUnchanged(Reverse(Column(g, line)));
    CompactBothWays(g[line]);
    CompactBothWays(Column(g, line));
  }

  /** Every row and every column is packed and uniform. */
  ghost predicate LinesSettled(g: Grid)
    requires IsSquare(g)
  {
    forall line :: 0 <= line < |g| ==>
      Packed(g[line]) && Uniform(g[line]) && Packed(Column(g, line)) && Uniform(Column(g, line))
  }

  /** With every row and column packed and uniform, one tile makes its row
      full, that row makes every column full, and a full packed line has no
      equal neighbours. */
  lemma SettledBoard(g: Grid)
    requires IsSquare(g) && LinesSettled(g)
    ensures IsEmpty(g) || (IsFull(g) && NoEqualNeighbours(g))
  {
    var n := |g|;
    if !IsEmpty(g) {
      var i0, j0 :| 0 <= i0 < n && 0 <= j0 < n && g[i0][j0] != 0;
      assert Uniform(g[i0]);
      forall i, j | 0 <= i < n && 0 <= j < n
        ensures g[i][j] != 0
      {
        assert Uniform(Column(g, j));
        assert Column(g, j)[i0] == g[i0][j] != 0;
        assert Column(g, j)[i] == g[i][j];
      }
      forall i: nat, j: nat | i < n && j < n
        ensures DiffersFromNeighbours(g, i, j)
      {
        assert Packed(g[i]) && Packed(Column(g, j));
        if i > 0 {
          assert Column(g, j)[i - 1] == g[i - 1][j] != 0;
          assert Column(g, j)[i] == g[i][j];
        }
      }
    }
  }

  /** A board that no move changes holds no tile, or is full without equal
      neighbours. */
  lemma NoMoveStuck(g: Grid)
    requires IsSquare(g)
    requires Apply(Left, g) == g && Apply(Right, g) == g
    requires Apply(Up, g) == g && Apply(Down, g) == g
    ensures IsEmpty(g) || (IsFull(g) && NoEqualNeighbours(g))
  {
    forall line | 0 <= line < |g|
      ensures Packed(g[line]) && Uniform(g[line]) && Packed(Column(g, line)) && Uniform(Column(g, line))
    {
      NoMoveLines(g, line);
    }
    SettledBoard(g);
  }

  /** The other half of Stuck: on a board with a tile that is not full
      without equal neighbours, some move changes the board. */
  lemma SomeMoveSucceeds(g: Grid)
    requires IsSquare(g) && !IsEmpty(g) && !(IsFull(g) && NoEqualNeighbours(g))
    ensures exists d :: Apply(d, g) != g
  {
    if Apply(Left, g) == g && Apply(Right, g) == g && Apply(Up, g) == g && Apply(Down, g) == g {
      NoMoveStuck(g);
      assert false;
    }
  }

  /** The game is over when no move succeeds. */
  ghost predicate NoMoveSucceeds(g: Grid)
    requires IsSquare(g)
  {
    forall d :: Apply(d, g) == g
  }

  /** An empty board of a size the board accepts: its tile count is not the
      number of cells, so isGameOver reports the game as running, yet no
      move succeeds. */
  lemma EmptyBoardNotOver(g: Grid)
    requires IsSquare(g) && |g| >= 2 && IsEmpty(g)
    ensures CountTiles(g) != |g| * |g|
    ensures NoMoveSucceeds(g)
  {
    assert g[0][0] == 0;
    if CountTiles(g) == |g| * |g| {
      FullCount(g);
      assert false;
    }
    forall d
      ensures Apply(d, g) == g
    {
      EmptyStuck(d, g);
    }
  }

  /** On every board with a tile, the test isGameOver makes (the tile count
      fills the board and no neighbours are equal) holds exactly when no
      move succeeds: the empty board is the only one where they differ. */
  lemma GameOverAsWritten(g: Grid)
    requires IsSquare(g) && !IsEmpty(g)
    ensures (CountTiles(g) == |g| * |g| && NoEqualNeighbours(g)) <==> NoMoveSucceeds(g)
  {
    FullCount(g);
    if CountTiles(g) == |g| * |g| && NoEqualNeighbours(g) {
      forall d
        ensures Apply(d, g) == g
      {
        Stuck(d, g);
      }
    } else if NoMoveSucceeds(g) {
      assert Apply(Left, g) == g && Apply(Right, g) == g;
      assert Apply(Up, g) == g && Apply(Down, g) == g;
      NoMoveStuck(g);
      assert false;
    }
  }

  /** The game-over test that agrees with its documented meaning on every
      board: no tile at all, or full without equal neighbours. */
  predicate IsOver(g: Grid)
    requires IsSquare(g)
  {
    IsEmpty(g) || (IsFull(g) && NoEqualNeighbours(g))
  }

  /** IsOver holds exactly when no move succeeds. */
  lemma OverExactly(g: Grid)
    requires IsSquare(g)
    ensures IsOver(g) <==> NoMoveSucceeds(g)
  {
    if IsOver(g) {
      forall d
        ensures Apply(d, g) == g
      {
        if IsEmpty(g) {
          EmptyStuck(d, g);
        } else {
          Stuck(d, g);
        }
      }
    } else {
      SomeMoveSucceeds(g);
    }
  }

  // ---------------------------------------------------------------------
  // Worked examples of single moves.

  /** moveRight turns the row [2, 0, 0, 2] into [0, 0, 0, 4]. */
  lemma SlideRight()
    ensures Reverse(Collapse(Reverse([2, 0, 0, 2]))) == [0, 0, 0, 4]
  {
    assert Reverse([2, 0, 0, 2]) == [2, 0, 0, 2];
    assert NonZero([2, 0, 0, 2]) == [2, 2] by {
      assert Front([2, 0, 0, 2]) == [2, 0, 0];
      assert Front([2, 0, 0]) == [2, 0];
      assert Front([2, 0]) == [2];
      assert Front([2]) == [];
    }
    assert Merge([2, 2]) == [4] by {
      assert [2, 2][2..] == [];
    }
    assert Collapse([2, 0, 0, 2]) == [4, 0, 0, 0];
  }

  /** The full board [[2, 4], [4, 2]] is over: no move changes it. */
  lemma StuckExample(d: Direction)
    ensures Apply(d, [[2, 4], [4, 2]]) == [[2, 4], [4, 2]]
  {
    var g: Grid := [[2, 4], [4, 2]];
    assert IsSquare(g);
    assert IsFull(g);
    forall i: nat, j: nat | i < 2 && j < 2
      ensures DiffersFromNeighbours(g, i, j)
    {
    }
    Stuck(d, g);
  }

  /** A column of two equal tiles, and an empty column, moved up. */
  lemma PairColumns(v: int)
    requires v != 0
    ensures MergesValue(NonZero([v, v]), v)
    ensures Collapse([v, v]) == [2 * v, 0]
    ensures Collapse([0, 0]) == [0, 0]
  {
    var t := [v, v];
    NonZeroAll(t);
    assert t[2..] == [];
    assert Merge(t) == [2 * v] + Merge([]);
    assert Collapse(t) == [2 * v] + Zeros(1);
    EmptyColumn();
  }

  lemma EmptyColumn()
    ensures Collapse([0, 0]) == [0, 0]
  {
    var z := [0, 0];
    assert Front(z) == [0] && Front([0]) == [];
    assert NonZero(z) == NonZero([0]) == NonZero([]) == [];
    assert Collapse(z) == [] + Zeros(2);
  }

  /** Moving up a 2 by 2 board whose first column holds two equal tiles
      and whose second column is empty. */
  lemma PairMovesUp(g: Grid, v: int)
    requires IsSquare(g) && |g| == 2 && v != 0
    requires Line(g, Up, 0) == [v, v] && Line(g, Up, 1) == [0, 0]
    ensures Apply(Up, g) == [[2 * v, 0], [0, 0]]
  {
    PairColumns(v);
    ApplyLine(Up, g, 0);
    ApplyLine(Up, g, 1);
    var h := Apply(Up, g);
    assert Line(h, Up, 0) == [2 * v, 0];
    assert Line(h, Up, 1) == [0, 0];
    assert h[0] == [Line(h, Up, 0)[0], Line(h, Up, 1)[0]];
    assert h[1] == [Line(h, Up, 0)[1], Line(h, Up, 1)[1]];
  }

  /** Two 1024s stacked in a column merge into 2048 when moved up: the
      move merges a pair of 1024-tiles, which is what raises the flag. */
  lemma ReachTarget()
    ensures SomeLineMerges(Up, [[1024, 0], [1024, 0]], 2, 1024)
    ensures Apply(Up, [[1024, 0], [1024, 0]]) == [[2048, 0], [0, 0]]
  {
    var g: Grid := [[1024, 0], [1024, 0]];
    assert IsSquare(g);
    PairColumns(1024);
    assert Line(g, Up, 0) == [1024, 1024];
    assert Line(g, Up, 1) == [0, 0];
    PairMovesUp(g, 1024);
  }
}
