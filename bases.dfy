/** The destructible barriers: each Base is a 2 x 4 grid of cells below
    its centre, and every cell takes four hits before it is gone. */
module Bases {
  import opened Geometry
  import opened Sprites
  import opened Bullets

  const GRID_ROWS: int := 2
  const GRID_COLS: int := 4
  /** Pixel pitch of the cell grid. */
  const CELL_DX: int := 22
  const CELL_DY: int := 29
  /** Hits a cell takes before it is dead. */
  const CELL_HITS: int := 4

  /** Base::Cell: its damage images, the hit count ind and the dead flag. */
  datatype Cell = Cell(images: Sprite, ind: int, dead: bool) {

    predicate Valid() {
      images.count == CELL_HITS && images.Valid() &&
      0 <= ind <= CELL_HITS && (dead <==> ind == CELL_HITS)
    }

    /** Cell::hit: show the next damage image, count the hit, and die at
        the fourth. */
    function Hit(): (c: Cell)
      ensures c.ind == ind + 1
      ensures c.dead <==> dead || ind + 1 >= CELL_HITS
      ensures Valid() && !dead ==> c.Valid()
    {
      var i := ind + 1;
      Cell(images.Next(), i, dead || i >= CELL_HITS)
    }

    /** Cell::reset. */
    function Reset(): (c: Cell)
      ensures images.count == CELL_HITS ==> c.Valid()
      ensures c.ind == 0 && !c.dead
    {
      Cell(images.Reset(), 0, false)
    }
  }

  /** An undamaged cell with its four images loaded. */
  function NewCell(): (c: Cell)
    ensures c.Valid()
  {
    Cell(Frames(CELL_HITS), 0, false)
  }

  /** n hits in a row. */
  function Hits(c: Cell, n: nat): Cell
  {
    if n == 0 then c else Hits(c, n - 1).Hit()
  }

  /** An undamaged cell survives three hits and is dead at the fourth;
      its image follows the damage count. */
  lemma {:induction false} CellLastsFourHits(n: nat)
    requires n <= CELL_HITS
    ensures var c := Hits(NewCell(), n);
      c.Valid() && c.ind == n && (c.dead <==> n == CELL_HITS) &&
      c.images.index == n % CELL_HITS
  {
    if n > 0 {
      CellLastsFourHits(n - 1);
    }
  }

  /** The sub-rectangle of cell (r, c) of the base centred at (x, y) with
      size w x h: columns start at x - w / 2, rows at y + h / 2, both
      bounds included as in Base::checkHit. */
  function CellRect(x: int, y: int, w: nat, h: nat, r: int, c: int): (rect: Rect)
    ensures rect.x2 - rect.x1 == CELL_DX && rect.y2 - rect.y1 == CELL_DY
  {
    Rect(x - w / 2 + CELL_DX * c, y + h / 2 + CELL_DY * r,
         x - w / 2 + CELL_DX * (c + 1), y + h / 2 + CELL_DY * (r + 1))
  }

  /** Neighbouring cells share their common edge, so a bullet on the
      edge hits both. */
  lemma NeighbouringCellsTouch(x: int, y: int, w: nat, h: nat, r: int, c: int)
    ensures Overlaps(CellRect(x, y, w, h, r, c), CellRect(x, y, w, h, r, c + 1))
    ensures Overlaps(CellRect(x, y, w, h, r, c), CellRect(x, y, w, h, r + 1, c))
  {
  }

  /** A live cell with sub-rectangle rect is hit by a bullet with box br. */
  predicate Struck(br: Rect, cell: Cell, rect: Rect) {
    !cell.dead && Overlaps(br, rect)
  }

  /** The cell after a bullet with box br has been tested against its
      sub-rectangle rect: one hit when struck, unchanged otherwise. */
  function AfterShot(br: Rect, cell: Cell, rect: Rect): (c: Cell)
    ensures Struck(br, cell, rect) ==> c == cell.Hit()
    ensures !Struck(br, cell, rect) ==> c == cell
    ensures cell.Valid() ==> c.Valid()
  {
    if Struck(br, cell, rect) then cell.Hit() else cell
  }

  const BASE_WIDTH: nat := 87
  const BASE_HEIGHT: nat := 57

  /** The cells of one base, row by row. */
  type CellGrid = seq<seq<Cell>>

  predicate IsGrid(g: CellGrid) {
    |g| == GRID_ROWS && forall r :: 0 <= r < |g| ==> |g[r]| == GRID_COLS
  }

  predicate GridValid(g: CellGrid) {
    IsGrid(g) && forall r, c :: 0 <= r < |g| && 0 <= c < |g[r]| ==> g[r][c].Valid()
  }

  /** The grid of a new base. */
  function NewGrid(): (g: CellGrid)
    ensures GridValid(g)
  {
    seq(GRID_ROWS, _ => seq(GRID_COLS, _ => NewCell()))
  }

  /** Some live cell of grid g, of the base centred at (x, y), is struck by
      a bullet with box br. */
  predicate StruckGrid(g: CellGrid, x: int, y: int, br: Rect) {
    exists r, c :: 0 <= r < |g| && 0 <= c < |g[r]| && Struck(br, g[r][c], CellRect(x, y, BASE_WIDTH, BASE_HEIGHT, r, c))
  }

  /** The grid after Base::checkHit with a bullet of box br: each cell is
      tested against its own sub-rectangle. */
  function ShotGrid(g: CellGrid, x: int, y: int, br: Rect): (h: CellGrid)
    ensures |h| == |g| && forall r :: 0 <= r < |g| ==> |h[r]| == |g[r]|
    ensures forall r, c :: 0 <= r < |g| && 0 <= c < |g[r]| ==>
      h[r][c] == AfterShot(br, g[r][c], CellRect(x, y, BASE_WIDTH, BASE_HEIGHT, r, c))
    ensures GridValid(g) ==> GridValid(h)
  {
    seq(|g|, r requires 0 <= r < |g| =>
      seq(|g[r]|, c requires 0 <= c < |g[r]| => AfterShot(br, g[r][c], CellRect(x, y, BASE_WIDTH, BASE_HEIGHT, r, c))))
  }

  /** The grid after Base::reset. */
  function ResetGrid(g: CellGrid): (h: CellGrid)
    ensures |h| == |g| && forall r :: 0 <= r < |g| ==> |h[r]| == |g[r]|
    ensures forall r, c :: 0 <= r < |g| && 0 <= c < |g[r]| ==> h[r][c] == g[r][c].Reset()
    ensures GridValid(g) ==> GridValid(h)
  {
    seq(|g|, r requires 0 <= r < |g| => seq(|g[r]|, c requires 0 <= c < |g[r]| => g[r][c].Reset()))
  }

  /** A shot changes only struck cells, each by exactly one hit, and the
      bullet is spent on the base exactly when some live cell was struck;
      a bullet that misses every live cell leaves the grid as it was. */
  lemma ShotGridHitsStruckCells(g: CellGrid, x: int, y: int, br: Rect)
    requires GridValid(g)
    ensures !StruckGrid(g, x, y, br) ==> ShotGrid(g, x, y, br) == g
    ensures forall r, c :: 0 <= r < GRID_ROWS && 0 <= c < GRID_COLS ==>
      ShotGrid(g, x, y, br)[r][c].ind == g[r][c].ind + (if Struck(br, g[r][c], CellRect(x, y, BASE_WIDTH, BASE_HEIGHT, r, c)) then 1 else 0)
  {
    var h := ShotGrid(g, x, y, br);
    if !StruckGrid(g, x, y, br) {
      forall r | 0 <= r < GRID_ROWS
        ensures h[r] == g[r]
      {
        assert forall c :: 0 <= c < GRID_COLS ==> h[r][c] == g[r][c];
      }
    }
  }

  class Base {
    const x: int
    const y: int
    const grid: array2<Cell>

    /** The cells, as a value. */
    function Cells(): CellGrid
      reads grid
    {
      seq(grid.Length0, r requires 0 <= r < grid.Length0 reads grid =>
        seq(grid.Length1, c requires 0 <= c < grid.Length1 reads grid => grid[r, c]))
    }

    ghost predicate Valid()
      reads grid
    {
      grid.Length0 == GRID_ROWS && grid.Length1 == GRID_COLS && GridValid(Cells())
    }

    /** Cell (r, c)'s sub-rectangle. */
    function CellAt(r: int, c: int): Rect
    {
      CellRect(x, y, BASE_WIDTH, BASE_HEIGHT, r, c)
    }

    /** The Base constructor: eight undamaged cells. */
    constructor (x: int, y: int)
      ensures Valid() && fresh(grid) && this.x == x && this.y == y
      ensures Cells() == NewGrid()
    {
      this.x, this.y := x, y;
      grid := new Cell[GRID_ROWS, GRID_COLS]((_, _) => NewCell());
      new;
      assert forall r :: 0 <= r < GRID_ROWS ==> Cells()[r] == NewGrid()[r];
    }

    /** Base::reset: every cell undamaged again. */
    method Reset()
      requires Valid()
      modifies grid
      ensures Valid()
      ensures Cells() == ResetGrid(old(Cells()))
    {
      for r := 0 to GRID_ROWS
        invariant forall i, j :: 0 <= i < r && 0 <= j < GRID_COLS ==> grid[i, j] == old(grid[i, j]).Reset()
        invariant forall i, j :: r <= i < GRID_ROWS && 0 <= j < GRID_COLS ==> grid[i, j] == old(grid[i, j])
      {
        for c := 0 to GRID_COLS
          invariant forall i, j :: 0 <= i < r && 0 <= j < GRID_COLS ==> grid[i, j] == old(grid[i, j]).Reset()
          invariant forall j :: 0 <= j < c ==> grid[r, j] == old(grid[r, j]).Reset()
          invariant forall i, j :: (r < i < GRID_ROWS || (i == r && c <= j)) && 0 <= j < GRID_COLS ==> grid[i, j] == old(grid[i, j])
        {
          grid[r, c] := grid[r, c].Reset();
        }
      }
      assert forall r :: 0 <= r < GRID_ROWS ==> Cells()[r] == ResetGrid(old(Cells()))[r];
    }

    /** Base::checkHit: every live cell whose sub-rectangle overlaps the
        bullet takes one hit, not only the first; dead and missed cells are
        unchanged. The bullet dies when at least one live cell was hit. */
    method CheckHit(b: Bullet) returns (b': Bullet)
      requires Valid()
      modifies grid
      ensures Valid()
      ensures Cells() == ShotGrid(old(Cells()), x, y, b.Rect())
      ensures b' == b.(dead := b.dead || StruckGrid(old(Cells()), x, y, b.Rect()))
    {
      b' := b;
      ghost var br, x0, y0 := b.Rect(), x, y;
      // A struck cell, once one has been met (the witness for the dead flag).
      ghost var wr, wc := 0, 0;
      var dx, dy := CELL_DX, CELL_DY;
      var y1 := y + BASE_HEIGHT / 2;
      var y2 := y1;
      for r := 0 to GRID_ROWS
        invariant y2 == y + BASE_HEIGHT / 2 + CELL_DY * r
        invariant b'.kind == b.kind && b'.x == b.x && b'.y == b.y && (b.dead ==> b'.dead)
        invariant forall i, j :: 0 <= i < GRID_ROWS && 0 <= j < GRID_COLS ==>
          if i < r then
            grid[i, j] == AfterShot(br, old(grid[i, j]), CellRect(x0, y0, BASE_WIDTH, BASE_HEIGHT, i, j)) &&
            (Struck(br, old(grid[i, j]), CellRect(x0, y0, BASE_WIDTH, BASE_HEIGHT, i, j)) ==> b'.dead)
          else grid[i, j] == old(grid[i, j])
        invariant b'.dead && !b.dead ==>
          0 <= wr < GRID_ROWS && 0 <= wc < GRID_COLS && Struck(br, old(grid[wr, wc]), CellRect(x0, y0, BASE_WIDTH, BASE_HEIGHT, wr, wc))
      {
        y1 := y2;
        y2 := y1 + dy;
        var x1 := x - BASE_WIDTH / 2;
        var x2 := x1;
        for c := 0 to GRID_COLS
          invariant x2 == x - BASE_WIDTH / 2 + CELL_DX * c
          invariant y1 == y + BASE_HEIGHT / 2 + CELL_DY * r && y2 == y1 + CELL_DY
          invariant b'.kind == b.kind && b'.x == b.x && b'.y == b.y && (b.dead ==> b'.dead)
          invariant forall i, j :: 0 <= i < GRID_ROWS && 0 <= j < GRID_COLS ==>
            if i < r || (i == r && j < c) then
              grid[i, j] == AfterShot(br, old(grid[i, j]), CellRect(x0, y0, BASE_WIDTH, BASE_HEIGHT, i, j)) &&
              (Struck(br, old(grid[i, j]), CellRect(x0, y0, BASE_WIDTH, BASE_HEIGHT, i, j)) ==> b'.dead)
            else grid[i, j] == old(grid[i, j])
          invariant b'.dead && !b.dead ==>
            0 <= wr < GRID_ROWS && 0 <= wc < GRID_COLS && Struck(br, old(grid[wr, wc]), CellRect(x0, y0, BASE_WIDTH, BASE_HEIGHT, wr, wc))
        {
          x1 := x2;
          x2 := x1 + dx;
          var cell := grid[r, c];
          var rect := Rect(x1, y1, x2, y2);
          assert rect == CellRect(x0, y0, BASE_WIDTH, BASE_HEIGHT, r, c) && cell == old(grid[r, c]);
          assert b'.Rect() == br;
          if Overlaps(b'.Rect(), rect) {
            if cell.dead {
              continue;
            }
            grid[r, c] := cell.Hit();
            if !b'.dead {
              wr, wc := r, c;
            }
            b' := b'.Kill();
          }
          assert grid[r, c] == AfterShot(br, cell, rect);
        }
      }
      if b'.dead && !b.dead {
        assert Struck(b.Rect(), old(Cells())[wr][wc], CellAt(wr, wc));
      }
      if StruckGrid(old(Cells()), x, y, b.Rect()) {
        var r, c :| 0 <= r < GRID_ROWS && 0 <= c < GRID_COLS && Struck(br, old(Cells())[r][c], CellAt(r, c));
        assert b'.dead;
      }
      assert forall r :: 0 <= r < GRID_ROWS ==> Cells()[r] == ShotGrid(old(Cells()), x, y, b.Rect())[r];
    }
  }
}
