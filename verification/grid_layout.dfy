/**
 * Row-major layout of the tile grid: which index a (row, column) position
 * has, which index lies next to a tile in each direction, and which tile a
 * pointer position falls in. The grid class links its tile objects exactly
 * as `Neighbor` says and lays out their rectangles as `TileRect` says.
 */
module GridLayout {
  import opened Wrappers
  import opened Geometry
  import opened TileExtensions

  /** Screen position of the grid's top-left corner and the side of a tile, in pixels. */
  const OriginX: int := 120
  const OriginY: int := 40
  const TileSize: int := 10

  /** Grid dimensions; tile (row, col) has index row * columns + col. */
  datatype Dims = Dims(columns: nat, rows: nat) {
    function Count(): nat { columns * rows }
  }

  function RowOf(g: Dims, i: nat): (row: nat)
    requires g.columns > 0
    ensures i < g.Count() ==> row < g.rows
  {
    RowBound(g, i);
    i / g.columns
  }

  /** An index inside the grid has a quotient below the number of rows. */
  lemma RowBound(g: Dims, i: nat)
    requires g.columns > 0
    ensures i < g.Count() ==> i / g.columns < g.rows
  {
    if i / g.columns >= g.rows {
      MulMonotone(g.rows, i / g.columns, g.columns);
    }
  }

  function ColOf(g: Dims, i: nat): (col: nat)
    requires g.columns > 0
    ensures col < g.columns
  {
    i % g.columns
  }

  /** Arithmetic facts about row-major positions. */
  lemma MulMonotone(a: int, b: int, c: nat)
    requires a <= b
    ensures a * c <= b * c
  {
  }

  /** A position inside the grid has an index inside the grid. */
  lemma PositionInGrid(g: Dims, row: nat, col: nat)
    requires row < g.rows && col < g.columns
    ensures row * g.columns + col < g.Count()
  {
    MulMonotone(row + 1, g.rows, g.columns);
  }

  /** The cell above a cell of a row after the first lies one row width back. */
  lemma AboveIndex(c: nat, row: nat, col: nat)
    requires row > 0
    ensures row * c + col >= c && (row - 1) * c + col == row * c + col - c
  {
  }

  /** The quotient and remainder of an index are its unique row and column. */
  lemma DivModUnique(c: nat, a: int, b: int, j: int)
    requires c > 0 && 0 <= b < c && j == a * c + b
    ensures j / c == a && j % c == b
  {
    var q, m := j / c, j % c;
    assert j == q * c + m;
    if q > a {
      MulMonotone(a + 1, q, c);
      assert false;
    } else if q < a {
      MulMonotone(q + 1, a, c);
      assert false;
    }
  }

  /** Every index of a non-empty grid splits into a row and a column inside the grid. */
  lemma IndexSplit(g: Dims, i: nat)
    requires i < g.Count()
    ensures g.columns > 0
    ensures i == RowOf(g, i) * g.columns + ColOf(g, i)
    ensures RowOf(g, i) < g.rows && ColOf(g, i) < g.columns
  {
  }

  /** Row and column offsets of a direction. */
  function DeltaRow(d: TileDirection): int {
    if d == TOP then -1 else if d == BOTTOM then 1 else 0
  }

  function DeltaCol(d: TileDirection): int {
    if d == LEFT then -1 else if d == RIGHT then 1 else 0
  }

  /** The index of the tile next to tile `i` in direction `d`, if there is one. */
  function Neighbor(g: Dims, i: nat, d: TileDirection): (r: Option<nat>)
    requires i < g.Count()
    ensures r.Some? ==> r.value < g.Count()
  {
    IndexSplit(g, i);
    var row, col := RowOf(g, i), ColOf(g, i);
    if d == TOP then
      (if row > 0 then Some(i - g.columns) else None)
    else if d == BOTTOM then
      (if row < g.rows - 1 then PositionInGrid(g, row + 1, col); Some(i + g.columns) else None)
    else if d == LEFT then
      (if col > 0 then Some(i - 1) else None)
    else
      (if col < g.columns - 1 then PositionInGrid(g, row, col + 1); Some(i + 1) else None)
  }

  /**
   * `Neighbor` is exactly grid adjacency: `j` is the neighbour of `i` in
   * direction `d` if and only if `j` is in the grid one step from `i` in that
   * direction, in row and column.
   */
  lemma NeighborIsAdjacent(g: Dims, i: nat, d: TileDirection, j: nat)
    requires i < g.Count()
    ensures Neighbor(g, i, d) == Some(j) <==>
      && j < g.Count()
      && RowOf(g, j) == RowOf(g, i) + DeltaRow(d)
      && ColOf(g, j) == ColOf(g, i) + DeltaCol(d)
  {
    IndexSplit(g, i);
    var c, row, col := g.columns, RowOf(g, i), ColOf(g, i);
    var row', col' := row + DeltaRow(d), col + DeltaCol(d);
    if 0 <= row' < g.rows && 0 <= col' < c {
      PositionInGrid(g, row', col');
      var k := row' * c + col';
      assert k == i + DeltaRow(d) * c + DeltaCol(d);
      DivModUnique(c, row', col', k);
      assert Neighbor(g, i, d) == Some(k);
      if j < g.Count() && RowOf(g, j) == row' && ColOf(g, j) == col' {
        IndexSplit(g, j);
      }
    } else if j < g.Count() {
      IndexSplit(g, j);
    }
  }

  /** Links are mutual: if `j` is next to `i` in direction `d`, then `i` is next to `j` in the opposite direction. */
  lemma NeighborSymmetric(g: Dims, i: nat, d: TileDirection)
    requires i < g.Count()
    ensures Neighbor(g, i, d).Some? ==>
      Neighbor(g, Neighbor(g, i, d).value, GetOpposite(d)) == Some(i)
  {
    if Neighbor(g, i, d).Some? {
      var j := Neighbor(g, i, d).value;
      NeighborIsAdjacent(g, i, d, j);
      NeighborIsAdjacent(g, j, GetOpposite(d), i);
    }
  }

  /** Boundary tiles have no neighbour on their outer sides, and only there. */
  lemma NeighborPresence(g: Dims, i: nat)
    requires i < g.Count()
    ensures g.columns > 0
    ensures Neighbor(g, i, TOP).Some? <==> RowOf(g, i) > 0
    ensures Neighbor(g, i, BOTTOM).Some? <==> RowOf(g, i) < g.rows - 1
    ensures Neighbor(g, i, LEFT).Some? <==> ColOf(g, i) > 0
    ensures Neighbor(g, i, RIGHT).Some? <==> ColOf(g, i) < g.columns - 1
  {
    IndexSplit(g, i);
  }

  /** No tile is its own neighbour and no two directions lead to the same tile. */
  lemma NeighborsDistinct(g: Dims, i: nat)
    requires i < g.Count()
    ensures forall d: TileDirection :: Neighbor(g, i, d) != Some(i)
    ensures forall d: TileDirection, e: TileDirection ::
      d != e && Neighbor(g, i, d).Some? ==> Neighbor(g, i, e) != Neighbor(g, i, d)
  {
    IndexSplit(g, i);
  }

  /** The screen rectangle of tile `i`. */
  function TileRect(g: Dims, i: nat): Rectangle
    requires g.columns > 0
  {
    Rectangle(OriginX + TileSize * ColOf(g, i), OriginY + TileSize * RowOf(g, i), TileSize, TileSize)
  }

  /** The tile under a pointer position, computed from the position alone. */
  function HoverIndex(g: Dims, p: Point): (r: Option<nat>)
    ensures r.Some? ==> r.value < g.Count()
  {
    if OriginX <= p.x < OriginX + TileSize * g.columns && OriginY <= p.y < OriginY + TileSize * g.rows then
      var row, col := (p.y - OriginY) / TileSize, (p.x - OriginX) / TileSize;
      PositionInGrid(g, row, col);
      Some(row * g.columns + col)
    else None
  }

  /** Tile `i` contains the pointer exactly when it is the tile `HoverIndex` names. */
  lemma HoverIndexContains(g: Dims, p: Point, i: nat)
    requires i < g.Count()
    ensures HoverIndex(g, p) == Some(i) <==> TileRect(g, i).Contains(p)
  {
    IndexSplit(g, i);
    var row, col := RowOf(g, i), ColOf(g, i);
    if TileRect(g, i).Contains(p) {
      assert (p.y - OriginY) / TileSize == row;
      assert (p.x - OriginX) / TileSize == col;
    }
    if HoverIndex(g, p) == Some(i) {
      var row', col' := (p.y - OriginY) / TileSize, (p.x - OriginX) / TileSize;
      DivModUnique(g.columns, row', col', i);
    }
  }
}
