/**
 * The tile grid: it builds and links one `LiquidTile` per cell of the
 * configured grid, reacts to the input manager's events by injecting,
 * draining and selecting tiles, and runs the flow rule over every tile once
 * per update. Its state, read through `State()`, moves exactly as the value
 * transitions of the `Interaction` module say.
 */
module TileGrids {
  import opened Wrappers
  import opened Geometry
  import opened Numeric
  import opened TileExtensions
  import opened GridLayout
  import opened LiquidTiles
  import opened FlowPasses
  import opened InputManagement
  import opened Interaction

  /** The grid configuration as read from JSON; the version string is carried but never used. */
  datatype TileGridConfig = TileGridConfig(version: string, columns: int, rows: int, passableTiles: seq<bool>)

  /** A configuration the grid can be built from: non-negative sizes and a flag for every tile. */
  predicate ConfigFits(config: TileGridConfig) {
    config.columns >= 0 && config.rows >= 0 && |config.passableTiles| >= config.columns * config.rows
  }

  function LayoutOf(config: TileGridConfig): Dims
    requires ConfigFits(config)
  {
    Dims(config.columns, config.rows)
  }

  /** Tile object `t` carries the index, position, rectangle and passability of cell `i`. */
  predicate Fits(g: Dims, passable: seq<bool>, t: LiquidTile, i: nat)
    requires i < g.Count() <= |passable|
  {
    && g.columns > 0
    && t.Index == i && t.X == ColOf(g, i) && t.Y == RowOf(g, i)
    && t.Rect == TileRect(g, i)
    && t.Passable == passable[i]
    && t.Neighbors.Length == DirectionCount
  }

  /** The index a tile object carries, if any. */
  function IndexOf(t: LiquidTile?): Option<nat> {
    if t == null || t.Index < 0 then None else Some(t.Index as nat)
  }

  /**
   * The index tile `i` is linked to in direction `d` once tiles 0 .. k-1 have
   * been created and linked in creation order: its grid neighbour, if that
   * tile exists yet, except that the links between the last tile, `k - 1`,
   * and the tile on its left are only in place when `left`, and those
   * between it and the tile above only when `up`.
   */
  function LinkIndex(g: Dims, i: nat, d: TileDirection, k: nat, left: bool, up: bool): (r: Option<nat>)
    requires i < g.Count()
    ensures r.Some? ==> r == Neighbor(g, i, d) && r.value < k
  {
    var n := Neighbor(g, i, d);
    if n.None? || n.value >= k then None
    else if (d == LEFT && i == k - 1) || (d == RIGHT && n.value == k - 1) then (if left then n else None)
    else if (d == TOP && i == k - 1) || (d == BOTTOM && n.value == k - 1) then (if up then n else None)
    else n
  }

  /** Once every tile exists and is linked, each tile is linked to exactly its grid neighbours. */
  lemma LinkIndexComplete(g: Dims, i: nat, d: TileDirection)
    requires i < g.Count()
    ensures LinkIndex(g, i, d, g.Count(), true, true) == Neighbor(g, i, d)
  {
  }

  /** Creating tile `k` adds no link: the new tile has none and no earlier link changes. */
  lemma LinkIndexCreate(g: Dims, i: nat, d: TileDirection, k: nat)
    requires i <= k < g.Count()
    ensures LinkIndex(g, i, d, k + 1, false, false) ==
      if i == k then None else LinkIndex(g, i, d, k, true, true)
  {
    IndexSplit(g, i);
  }

  /**
   * Linking tile `row * columns + col` to the tile on its left adds exactly
   * that link and the reverse one, and none when the tile is in the first column.
   */
  lemma LinkIndexLeft(g: Dims, row: nat, col: nat, k: nat, i: nat, d: TileDirection, up: bool)
    requires row < g.rows && col < g.columns
    requires k == row * g.columns + col < g.Count() && i <= k
    ensures
      LinkIndex(g, i, d, k + 1, true, up) ==
        if col > 0 && i == k && d == LEFT then Some(k - 1)
        else if col > 0 && i == k - 1 && d == RIGHT then Some(k)
        else LinkIndex(g, i, d, k + 1, false, up)
  {
    DivModUnique(g.columns, row, col, k);
    IndexSplit(g, i);
    if i == k - 1 && col > 0 {
      DivModUnique(g.columns, row, col - 1, i);
    } else if i == k - 1 {
      DivModUnique(g.columns, row - 1, g.columns - 1, i);
    }
  }

  /**
   * Linking tile `row * columns + col` to the tile above adds exactly that
   * link and the reverse one, and none when the tile is in the first row.
   */
  lemma LinkIndexAbove(g: Dims, row: nat, col: nat, k: nat, i: nat, d: TileDirection, left: bool)
    requires row < g.rows && col < g.columns
    requires k == row * g.columns + col < g.Count() && i <= k
    ensures
      LinkIndex(g, i, d, k + 1, left, true) ==
        if row > 0 && i == k && d == TOP then Some(k - g.columns)
        else if row > 0 && i == k - g.columns && d == BOTTOM then Some(k)
        else LinkIndex(g, i, d, k + 1, left, false)
  {
    DivModUnique(g.columns, row, col, k);
    IndexSplit(g, i);
    if row > 0 && i == k - g.columns {
      DivModUnique(g.columns, row - 1, col, i);
    }
  }

  class TileGrid {
    const config: TileGridConfig
    const tiles: array<LiquidTile?>
    const inputManager: InputManager
    /** The tiles the last right press beamed; every value is true. */
    var beamedTiles: map<LiquidTile, bool>
    var hoveredTile: LiquidTile?
    var clickedTile: LiquidTile?

    function Layout(): Dims
      requires ConfigFits(config)
    {
      LayoutOf(config)
    }

    function Tiles(): set<LiquidTile>
      reads tiles
    {
      set i | 0 <= i < tiles.Length && tiles[i] != null :: tiles[i]
    }

    function NeighborArrays(): set<array<LiquidTile?>>
      reads tiles
    {
      set i | 0 <= i < tiles.Length && tiles[i] != null :: tiles[i].Neighbors
    }

    /** The tile an optional index names, null when there is none. */
    function TileAt(o: Option<nat>): LiquidTile?
      reads tiles
    {
      if o.Some? && o.value < tiles.Length then tiles[o.value] else null
    }

    /** Slot `i` holds a tile made for cell `i`, with a neighbour array of its own. */
    predicate Placed(i: nat)
      requires ConfigFits(config) && tiles.Length == Layout().Count() && i < tiles.Length
      reads tiles
    {
      tiles[i] != null && Fits(Layout(), config.passableTiles, tiles[i], i) && tiles[i].Neighbors != tiles
    }

    /** Tiles `i` and `j` do not share a neighbour array. */
    predicate Apart(i: nat, j: nat)
      requires ConfigFits(config) && tiles.Length == Layout().Count() && i < tiles.Length && j < tiles.Length
      requires Placed(i) && Placed(j)
      reads tiles
    {
      tiles[i].Neighbors != tiles[j].Neighbors
    }

    /**
     * The first `k` slots hold tiles made for their cells, each with a
     * neighbour array of its own, and the remaining slots are still empty.
     */
    ghost predicate Shaped(k: nat)
      reads tiles
    {
      && ConfigFits(config)
      && tiles.Length == Layout().Count()
      && k <= tiles.Length
      && (forall i :: 0 <= i < k ==> Placed(i))
      && (forall i :: k <= i < tiles.Length ==> tiles[i] == null)
      && (forall i, j :: 0 <= i < j < k ==> Apart(i, j))
    }

    /** Tile `i` is linked in every direction as `LinkIndex` says. */
    predicate Linked(i: nat, k: nat, left: bool, up: bool)
      requires ConfigFits(config) && tiles.Length == Layout().Count() && i < tiles.Length
      requires Placed(i)
      reads tiles, tiles[i].Neighbors
    {
      forall d: TileDirection :: tiles[i].Neighbors[d] == TileAt(LinkIndex(Layout(), i, d, k, left, up))
    }

    /** The first `k` tiles exist and are linked among themselves. */
    ghost predicate Built(k: nat, left: bool, up: bool)
      reads tiles, NeighborArrays()
    {
      Shaped(k) && forall i :: 0 <= i < k ==> Linked(i, k, left, up)
    }

    /** The first `k` tiles hold no liquid. */
    ghost predicate Emptied(k: nat)
      requires k <= tiles.Length
      reads tiles, Tiles()
    {
      forall i :: 0 <= i < k ==> CapacityOf(tiles[i]) == 0
    }

    /** A tile reference held by the grid is null or one of its own tiles. */
    predicate Refers(t: LiquidTile?)
      reads tiles
    {
      t == null || (0 <= t.Index < tiles.Length && tiles[t.Index] == t)
    }

    ghost predicate Valid()
      reads this, tiles, NeighborArrays(), Tiles(), inputManager
    {
      && Built(tiles.Length, true, true)
      && inputManager.Valid()
      && Refers(hoveredTile) && Refers(clickedTile)
      && (forall t :: t in beamedTiles ==> Refers(t) && beamedTiles[t])
      && AllNonNegative(Capacities())
      && ImpassableEmpty(config.passableTiles, Capacities())
      && WellFormed(Layout(), State())
    }

    /** Tile capacities in index order. */
    ghost function Capacities(): (caps: seq<int>)
      reads tiles, Tiles()
      ensures |caps| == tiles.Length
    {
      seq(tiles.Length, i requires 0 <= i < tiles.Length reads tiles, Tiles() => CapacityOf(tiles[i]))
    }

    ghost function BeamedIndices(): set<nat>
      reads this
    {
      set t | t in beamedTiles && t.Index >= 0 :: t.Index as nat
    }

    /** The grid's state as a value, each tile named by its index. */
    ghost function State(): GridState
      reads this, tiles, Tiles()
    {
      GridState(Capacities(), IndexOf(hoveredTile), IndexOf(clickedTile), BeamedIndices())
    }

    /**
     * A grid with every tile created empty and linked to its neighbours, no
     * hovered, clicked or beamed tile, and a fresh input manager.
     */
    constructor (config: TileGridConfig)
      requires ConfigFits(config)
      ensures Valid()
      ensures this.config == config
      ensures State() == GridState(seq(LayoutOf(config).Count(), _ => 0), None, None, {})
      ensures inputManager.Snapshot() == InputSnapshot(None, HoldTimer(0, 0), HoldTimer(0, 0))
    {
      this.config := config;
      tiles := new LiquidTile?[LayoutOf(config).Count()](_ => null);
      inputManager := new InputManager();
      beamedTiles := map[];
      hoveredTile := null;
      clickedTile := null;
      new;
      CreateTiles();
    }

    /** Creates the tiles row by row, left to right, linking each as it is created. */
    method CreateTiles()
      requires Built(0, true, true)
      modifies tiles
      ensures Built(tiles.Length, true, true) && Emptied(tiles.Length)
    {
      for row := 0 to config.rows
        invariant Built(row * config.columns, true, true) && Emptied(row * config.columns)
        invariant forall i :: 0 <= i < row * config.columns ==> tiles[i] != null && fresh(tiles[i].Neighbors)
      {
        PlaceRow(row);
      }
      assert config.rows * config.columns == config.columns * config.rows;
    }

    /** Creates the tiles of row `row`, left to right, linking each as it is created. */
    method PlaceRow(row: nat)
      requires ConfigFits(config) && row < config.rows
      requires Built(row * config.columns, true, true) && Emptied(row * config.columns)
      modifies tiles, NeighborArrays()
      ensures Built((row + 1) * config.columns, true, true) && Emptied((row + 1) * config.columns)
      ensures forall i :: 0 <= i < row * config.columns ==> tiles[i] == old(tiles[i])
      ensures forall i :: row * config.columns <= i < (row + 1) * config.columns ==> tiles[i] != null && fresh(tiles[i].Neighbors)
    {
      ghost var start := row * config.columns;
      ghost var created := start;
      for col := 0 to config.columns
        invariant created == start + col
        invariant Built(created, true, true)
        invariant Emptied(created)
        invariant forall i :: 0 <= i < start ==> tiles[i] == old(tiles[i])
        invariant forall i :: start <= i < created ==> tiles[i] != null && fresh(tiles[i].Neighbors)
      {
        if row > 0 {
          AboveIndex(config.columns, row, col);
          assert Placed(created - config.columns);
        }
        PlaceTile(row, col, created);
        created := created + 1;
      }
      assert created == (row + 1) * config.columns;
    }

    /**
     * Creates tile `row * columns + col` with capacity 0 and links it to the
     * tile on its left and the tile above, which links them back to it.
     */
    method PlaceTile(row: nat, col: nat, ghost created: nat)
      requires ConfigFits(config) && row < config.rows && col < config.columns
      requires created == row * config.columns + col
      requires Built(created, true, true) && Emptied(created)
      requires col > 0 ==> Placed(created - 1)
      requires row > 0 ==> created >= config.columns && Placed(created - config.columns)
      modifies tiles
      modifies if col > 0 then {tiles[created - 1].Neighbors} else {}
      modifies if row > 0 then {tiles[created - config.columns].Neighbors} else {}
      ensures Built(created + 1, true, true) && Emptied(created + 1)
      ensures forall i :: 0 <= i < created ==> tiles[i] == old(tiles[i])
      ensures tiles[created] != null && fresh(tiles[created].Neighbors)
    {
      var index := row * config.columns + col;
      NewTile(row, col, index);
      LinkLeft(row, col, index);
      LinkAbove(row, col, index);
    }

    /** Creates tile `index` with capacity 0 and stores it in its slot, not yet linked. */
    method NewTile(row: nat, col: nat, index: nat)
      requires ConfigFits(config) && row < config.rows && col < config.columns
      requires index == row * config.columns + col
      requires Built(index, true, true) && Emptied(index)
      modifies tiles
      ensures Built(index + 1, false, false) && Emptied(index + 1)
      ensures forall i :: 0 <= i < index ==> tiles[i] == old(tiles[i])
      ensures tiles[index] != null && fresh(tiles[index].Neighbors)
    {
      var g := Layout();
      PositionInGrid(g, row, col);
      DivModUnique(g.columns, row, col, index);
      var x := col * TileSize + OriginX;
      var y := row * TileSize + OriginY;
      var tile := new LiquidTile(Rectangle(x, y, TileSize, TileSize), 0, col, row, index, config.passableTiles[index]);
      tiles[index] := tile;
      assert Placed(index);
      forall i | 0 <= i < index ensures Placed(i) {
        assert old(Placed(i));
      }
      forall i, d: TileDirection | 0 <= i <= index && Placed(i)
        ensures tiles[i].Neighbors[d] == TileAt(LinkIndex(g, i, d, index + 1, false, false))
      {
        LinkIndexCreate(g, i, d, index);
        if i < index {
          assert old(Linked(i, index, true, true));
        }
      }
      forall i, j | 0 <= i < j <= index && Placed(i) && Placed(j) ensures Apart(i, j) {
        if j < index {
          assert old(Apart(i, j));
        }
      }
      assert Shaped(index + 1);
    }

    /** Links tile `index` and the tile on its left to each other, when there is one. */
    method LinkLeft(row: nat, col: nat, index: nat)
      requires ConfigFits(config) && row < config.rows && col < config.columns
      requires index == row * config.columns + col
      requires Built(index + 1, false, false) && Placed(index) && (col > 0 ==> Placed(index - 1))
      requires Emptied(index + 1)
      modifies tiles[index].Neighbors, if col > 0 then {tiles[index - 1].Neighbors} else {}
      ensures Built(index + 1, true, false) && Emptied(index + 1)
    {
      var g := Layout();
      PositionInGrid(g, row, col);
      if col > 0 {
        assert Apart(index - 1, index);
        var _ := tiles[index].AddNeighbor(tiles[row * config.columns + (col - 1)], LEFT);
        forall i, d: TileDirection | 0 <= i <= index && Placed(i)
          ensures tiles[i].Neighbors[d] == TileAt(LinkIndex(g, i, d, index + 1, true, false))
        {
          LinkIndexLeft(g, row, col, index, i, d, false);
          assert old(Linked(i, index + 1, false, false));
          if i < index - 1 {
            assert Apart(i, index - 1) && Apart(i, index);
          }
        }
      } else {
        forall i, d: TileDirection | 0 <= i <= index && Placed(i)
          ensures tiles[i].Neighbors[d] == TileAt(LinkIndex(g, i, d, index + 1, true, false))
        {
          LinkIndexLeft(g, row, col, index, i, d, false);
          assert Linked(i, index + 1, false, false);
        }
      }
    }

    /** Links tile `index` and the tile above it to each other, when there is one. */
    method LinkAbove(row: nat, col: nat, index: nat)
      requires ConfigFits(config) && row < config.rows && col < config.columns
      requires index == row * config.columns + col
      requires Built(index + 1, true, false) && Placed(index)
      requires row > 0 ==> index >= config.columns && Placed(index - config.columns)
      requires Emptied(index + 1)
      modifies tiles[index].Neighbors, if row > 0 then {tiles[index - config.columns].Neighbors} else {}
      ensures Built(index + 1, true, true) && Emptied(index + 1)
    {
      var g := Layout();
      PositionInGrid(g, row, col);
      if row > 0 {
        AboveIndex(config.columns, row, col);
        assert Apart(index - config.columns, index);
        var _ := tiles[index].AddNeighbor(tiles[(row - 1) * config.columns + col], TOP);
        forall i, d: TileDirection | 0 <= i <= index && Placed(i)
          ensures tiles[i].Neighbors[d] == TileAt(LinkIndex(g, i, d, index + 1, true, true))
        {
          LinkIndexAbove(g, row, col, index, i, d, true);
          assert old(Linked(i, index + 1, true, false));
          if i < index - config.columns {
            assert Apart(i, index - config.columns) && Apart(i, index);
          } else if index - config.columns < i < index {
            assert Apart(index - config.columns, i) && Apart(i, index);
          }
        }
      } else {
        forall i, d: TileDirection | 0 <= i <= index && Placed(i)
          ensures tiles[i].Neighbors[d] == TileAt(LinkIndex(g, i, d, index + 1, true, true))
        {
          LinkIndexAbove(g, row, col, index, i, d, true);
          assert Linked(i, index + 1, true, false);
        }
      }
    }

    /** The grid object, its tiles and their neighbour arrays are distinct objects. */
    lemma Separate()
      ensures forall o: object :: o in NeighborArrays() ==> o !in Tiles() && o != this
      ensures forall o: object :: o in Tiles() ==> o != this
      ensures forall o: object :: o in NeighborArrays() || o in Tiles() || o == this || o == tiles ==> o != inputManager
    {
    }

    /** Slot `i` of a built grid holds the tile made for cell `i`. */
    lemma TileAtIndex(i: nat)
      requires Built(tiles.Length, true, true) && i < tiles.Length
      ensures tiles[i] != null && tiles[i].Index == i && Refers(tiles[i])
      ensures tiles[i].Passable == config.passableTiles[i]
      ensures tiles[i].X == ColOf(Layout(), i) && tiles[i].Y == RowOf(Layout(), i)
      ensures tiles[i].Rect == TileRect(Layout(), i)
    {
      assert Placed(i);
    }

    /** In a built grid each neighbour slot holds the tile at the grid neighbour in that direction. */
    lemma NeighborSlot(i: nat, d: TileDirection)
      requires Built(tiles.Length, true, true) && i < tiles.Length
      ensures Placed(i) && tiles[i].Neighbors[d] == TileAt(Neighbor(Layout(), i, d))
    {
      assert Placed(i) && Linked(i, tiles.Length, true, true);
      LinkIndexComplete(Layout(), i, d);
    }

    /** In a built grid the four accessors of tile `i` give the tiles of its grid neighbours, or null. */
    lemma NeighborAccessors(i: nat)
      requires Built(tiles.Length, true, true) && i < tiles.Length
      ensures Placed(i)
      ensures tiles[i].Right() == TileAt(Neighbor(Layout(), i, RIGHT))
      ensures tiles[i].Bottom() == TileAt(Neighbor(Layout(), i, BOTTOM))
      ensures tiles[i].Left() == TileAt(Neighbor(Layout(), i, LEFT))
      ensures tiles[i].Top() == TileAt(Neighbor(Layout(), i, TOP))
    {
      NeighborSlot(i, RIGHT);
      NeighborSlot(i, BOTTOM);
      NeighborSlot(i, LEFT);
      NeighborSlot(i, TOP);
    }

    /**
     * In a built grid the links are exact and mutual: slot `d` of tile `i`
     * holds a tile exactly when the grid has a cell next to `i` in direction
     * `d`, that tile is the one made for that cell, and it links back to tile
     * `i` in the opposite direction.
     */
    lemma LinksMutual(i: nat, d: TileDirection)
      requires Built(tiles.Length, true, true) && i < tiles.Length
      ensures tiles[i] != null && tiles[i].Neighbors.Length == DirectionCount
      ensures var n, o := tiles[i].Neighbors[d], Neighbor(Layout(), i, d);
        && (n != null <==> o.Some?)
        && (n != null ==> n.Index == o.value && n.Neighbors.Length == DirectionCount && n.Neighbors[GetOpposite(d)] == tiles[i])
    {
      NeighborSlot(i, d);
      var o := Neighbor(Layout(), i, d);
      if o.Some? {
        TileAtIndex(o.value);
        NeighborSymmetric(Layout(), i, d);
        NeighborSlot(o.value, GetOpposite(d));
      }
    }

    /**
     * What tile `i`'s flow rule sees in a built grid is what `FlowAt` reads at
     * index `i`, and the tiles it writes are distinct tiles of the grid.
     */
    lemma FlowView(i: nat)
      requires Built(tiles.Length, true, true) && i < tiles.Length
      ensures tiles[i] != null && tiles[i].Neighbors.Length == DirectionCount
      ensures tiles[i].FlowTargetsDistinct() && tiles[i].FlowTargets() <= Tiles()
      ensures tiles[i].Around() == CellsAt(Layout(), Capacities(), i)
      ensures tiles[i].Sides() == OpeningsAt(Layout(), config.passableTiles, i)
    {
      var g := Layout();
      NeighborSlot(i, BOTTOM);
      NeighborSlot(i, LEFT);
      NeighborSlot(i, RIGHT);
      NeighborsDistinct(g, i);
      TileAtIndex(i);
      var nb, nl, nr := Neighbor(g, i, BOTTOM), Neighbor(g, i, LEFT), Neighbor(g, i, RIGHT);
      if nb.Some? { TileAtIndex(nb.value); }
      if nl.Some? { TileAtIndex(nl.value); }
      if nr.Some? { TileAtIndex(nr.value); }
    }

    /** The flow rule at tile `i` can write only tile `i` and the tiles below it, on its left and on its right. */
    lemma FlowWrites(i: nat)
      requires Built(tiles.Length, true, true) && i < tiles.Length
      ensures tiles[i] != null && tiles[i].Neighbors.Length == DirectionCount
      ensures var g := Layout();
        forall j ::
          (0 <= j < tiles.Length && j != i && Neighbor(g, i, BOTTOM) != Some(j) &&
           Neighbor(g, i, LEFT) != Some(j) && Neighbor(g, i, RIGHT) != Some(j)) ==>
            tiles[j] != tiles[i] && tiles[j] !in tiles[i].FlowTargets()
    {
      var g := Layout();
      NeighborSlot(i, BOTTOM);
      NeighborSlot(i, LEFT);
      NeighborSlot(i, RIGHT);
      var nb, nl, nr := Neighbor(g, i, BOTTOM), Neighbor(g, i, LEFT), Neighbor(g, i, RIGHT);
      if nb.Some? { TileAtIndex(nb.value); }
      if nl.Some? { TileAtIndex(nl.value); }
      if nr.Some? { TileAtIndex(nr.value); }
      forall j | 0 <= j < tiles.Length && j != i && nb != Some(j) && nl != Some(j) && nr != Some(j)
        ensures tiles[j] != tiles[i] && tiles[j] !in tiles[i].FlowTargets()
      {
        TileAtIndex(j);
        TileAtIndex(i);
      }
    }

    /** A valid grid's state names only tiles of the grid. */
    lemma StateWellFormed()
      requires Valid()
      ensures WellFormed(Layout(), State()) && |config.passableTiles| >= Layout().Count()
    {
    }

    /** Two tile references held by the grid are the same tile exactly when they carry the same index. */
    lemma SameTile(a: LiquidTile?, b: LiquidTile?)
      requires Built(tiles.Length, true, true) && Refers(a) && Refers(b)
      ensures a == b <==> IndexOf(a) == IndexOf(b)
    {
    }

    /** Writes one tile's capacity; the property setter of the tile. */
    method SetTileCapacity(k: nat, v: int)
      requires Built(tiles.Length, true, true) && k < tiles.Length && Placed(k)
      modifies {tiles[k]}`Capacity
      ensures Capacities() == old(Capacities())[k := v]
    {
      Separate();
      tiles[k].Capacity := v;
      forall j | 0 <= j < tiles.Length && j != k ensures CapacityOf(tiles[j]) == old(CapacityOf(tiles[j])) {
        TileAtIndex(j);
      }
    }

    /**
     * A press of `key` with the pointer on the hovered tile: a left press
     * clicks it and adds 500 when it is passable; a right press replaces the
     * beamed tiles by the passable run of its column from its row down and
     * drains 100 from each, stopping at 0. Nothing happens with no hovered tile.
     */
    method ButtonPressed(key: InputKey, holdDurationMs: int)
      requires Valid()
      modifies this`clickedTile, this`beamedTiles, Tiles()`Capacity
      ensures Valid()
      ensures State() == Press(Layout(), config.passableTiles, old(State()), key)
    {
      Separate();
      StateWellFormed();
      ghost var g, passable, st := Layout(), config.passableTiles, State();
      assert g == Dims(config.columns, config.rows);
      if hoveredTile == null {
        return;
      }
      var h := hoveredTile.Index;
      TileAtIndex(h);
      if key == LeftButton {
        clickedTile := hoveredTile;
        if clickedTile.Passable {
          SetTileCapacity(h, clickedTile.Capacity + InjectAmount);
        }
      }
      if key == RightButton {
        BeamColumn();
      }
      PressKeepsNonNegative(g, passable, st, key);
    }

    /**
     * The right-press beam: replaces the beamed tiles by the tiles of the
     * hovered tile's column, from its row down to the first impassable one,
     * and drains 100 from each, stopping at 0.
     */
    method BeamColumn()
      requires Valid() && hoveredTile != null
      modifies this`beamedTiles, Tiles()`Capacity
      ensures Valid()
      ensures State() == Press(Layout(), config.passableTiles, old(State()), RightButton)
    {
      Separate();
      StateWellFormed();
      ghost var g, passable, st := Layout(), config.passableTiles, State();
      var h := hoveredTile.Index;
      TileAtIndex(h);
      IndexSplit(g, h);
      beamedTiles := map[];
      BeamRun(ColOf(Layout(), h), RowOf(Layout(), h));
      assert IndexOf(hoveredTile) == st.hovered && IndexOf(clickedTile) == st.clicked;
      assert State() == Press(g, passable, st, RightButton) by {
        RightPressResult(g, passable, st, h, BeamedIndices(), Capacities());
      }
      assert AllNonNegative(Capacities()) by {
        PressKeepsNonNegative(g, passable, st, RightButton);
      }
      assert ImpassableEmpty(passable, Capacities()) by {
        PressKeepsImpassableEmpty(g, passable, st, RightButton);
      }
    }

    /**
     * Beams the tiles of column `col` from row `start` down, stopping before
     * the first impassable tile or at the bottom of the grid.
     */
    method BeamRun(col: nat, start: nat)
      requires Built(tiles.Length, true, true)
      requires col < config.columns && start < config.rows
      requires beamedTiles == map[]
      modifies this`beamedTiles, Tiles()`Capacity
      ensures Built(tiles.Length, true, true)
      ensures forall t :: t in beamedTiles ==> Refers(t) && beamedTiles[t]
      ensures BeamedIndices() == ColumnRun(Layout(), col, start, BeamEnd(Layout(), config.passableTiles, col, start))
      ensures Capacities() == Drain(old(Capacities()), BeamedIndices())
    {
      Separate();
      ghost var g, passable, caps := Layout(), config.passableTiles, Capacities();
      assert g == Dims(config.columns, config.rows);
      ghost var end := BeamEnd(g, passable, col, start);
      for row := start to config.rows
        invariant row <= end
        invariant Built(tiles.Length, true, true)
        invariant forall t :: t in beamedTiles ==> Refers(t) && beamedTiles[t]
        invariant BeamedIndices() == ColumnRun(g, col, start, row)
        invariant Capacities() == Drain(caps, ColumnRun(g, col, start, row))
      {
        BeamStep(g, passable, col, start, row);
        var tileIndex := row * config.columns + col;
        assert tileIndex == row * g.columns + col;
        if config.passableTiles[tileIndex] {
          BeamNext(col, start, row, caps);
        } else {
          break;
        }
      }
    }

    /** Beams the tile of column `col` in row `row`, extending the run from `start` by one row. */
    method BeamNext(col: nat, start: nat, row: nat, ghost caps: seq<int>)
      requires Built(tiles.Length, true, true)
      requires col < config.columns && start <= row < config.rows
      requires forall t :: t in beamedTiles ==> Refers(t) && beamedTiles[t]
      requires BeamedIndices() == ColumnRun(Layout(), col, start, row)
      requires Capacities() == Drain(caps, ColumnRun(Layout(), col, start, row))
      modifies this`beamedTiles, Tiles()`Capacity
      ensures Built(tiles.Length, true, true)
      ensures forall t :: t in beamedTiles ==> Refers(t) && beamedTiles[t]
      ensures BeamedIndices() == ColumnRun(Layout(), col, start, row + 1)
      ensures Capacities() == Drain(caps, ColumnRun(Layout(), col, start, row + 1))
    {
      Separate();
      ghost var g := Layout();
      assert g == Dims(config.columns, config.rows);
      var k := row * config.columns + col;
      PositionInGrid(g, row, col);
      ColumnRunExtend(g, col, start, row);
      DrainExtend(caps, ColumnRun(g, col, start, row), k);
      BeamTile(k);
    }

    /** Marks tile `k` as beamed and drains 100 from it, stopping at 0. */
    method BeamTile(k: nat)
      requires Built(tiles.Length, true, true) && k < tiles.Length
      requires forall t :: t in beamedTiles ==> Refers(t) && beamedTiles[t]
      modifies this`beamedTiles, Tiles()`Capacity
      ensures forall t :: t in beamedTiles ==> Refers(t) && beamedTiles[t]
      ensures BeamedIndices() == old(BeamedIndices()) + {k}
      ensures Capacities() == old(Capacities())[k := Max(old(Capacities())[k] - BeamDrain, 0)]
    {
      Separate();
      TileAtIndex(k);
      beamedTiles := beamedTiles[tiles[k] := true];
      SetTileCapacity(k, Max(tiles[k].Capacity - BeamDrain, 0));
    }

    /** A release of `key`: the left button forgets the clicked tile, the right button the beamed tiles. */
    method ButtonReleased(key: InputKey)
      requires Valid()
      modifies this`clickedTile, this`beamedTiles
      ensures Valid()
      ensures State() == Release(old(State()), key)
    {
      Separate();
      if key == LeftButton {
        clickedTile := null;
        return;
      }
      if key == RightButton {
        beamedTiles := map[];
        return;
      }
    }

    /**
     * A pointer move: hovers the first tile whose rectangle contains the
     * pointer, or none, and when the hovered tile changed, presses again each
     * button that is held.
     */
    method MouseMoved(mouseState: MouseState, oldMouseState: MouseState)
      requires Valid()
      modifies this`hoveredTile, this`clickedTile, this`beamedTiles, Tiles()`Capacity
      ensures Valid()
      ensures State() == Move(Layout(), config.passableTiles, old(State()), mouseState)
    {
      Separate();
      StateWellFormed();
      ghost var g, passable, st := Layout(), config.passableTiles, State();
      var oldHoverTile := hoveredTile;
      hoveredTile := FindHovered(mouseState.position);
      assert State() == st.(hovered := HoverIndex(g, mouseState.position));
      SameTile(hoveredTile, oldHoverTile);
      if mouseState.leftButton == Pressed && hoveredTile != oldHoverTile {
        ButtonPressed(LeftButton, 0);
      }
      if mouseState.rightButton == Pressed && hoveredTile != oldHoverTile {
        ButtonPressed(RightButton, 0);
      }
    }

    /**
     * The first tile, in index order, whose rectangle contains point `p`, or
     * null when there is none; it is the tile of the cell under `p`.
     */
    method FindHovered(p: Point) returns (hovered: LiquidTile?)
      requires Built(tiles.Length, true, true)
      ensures Refers(hovered) && IndexOf(hovered) == HoverIndex(Layout(), p)
    {
      ghost var g := Layout();
      hovered := null;
      ghost var found: Option<nat> := None;
      for i := 0 to tiles.Length
        invariant hovered == null && found == None
        invariant forall j :: 0 <= j < i && tiles[j] != null ==> !tiles[j].Rect.Contains(p)
      {
        var tile := tiles[i];
        if tile == null {
          continue;
        }
        if tile.Rect.Contains(p) {
          hovered := tile;
          found := Some(i);
          break;
        }
      }
      if found.Some? {
        TileAtIndex(found.value);
        HoverIndexContains(g, p, found.value);
      } else if HoverIndex(g, p).Some? {
        TileAtIndex(HoverIndex(g, p).value);
        HoverIndexContains(g, p, HoverIndex(g, p).value);
      }
    }

    /** Runs the handler the input manager's delegate for `e` is wired to. */
    method Dispatch(e: InputEvent)
      requires Valid()
      modifies this`hoveredTile, this`clickedTile, this`beamedTiles, Tiles()`Capacity
      ensures Valid()
      ensures State() == Handle(Layout(), config.passableTiles, old(State()), e)
    {
      match e
      case ButtonPressedEvent(key, holdDurationMs) => ButtonPressed(key, holdDurationMs);
      case ButtonReleasedEvent(key) => ButtonReleased(key);
      case MouseMovedEvent(mouseState, oldMouseState) => MouseMoved(mouseState, oldMouseState);
    }

    /** Applies the flow rule at tile `i`, in place. */
    method FlowTile(i: nat)
      requires Built(tiles.Length, true, true) && i < tiles.Length
      modifies Tiles()`Capacity
      ensures Built(tiles.Length, true, true)
      ensures Capacities() == FlowAt(Layout(), config.passableTiles, old(Capacities()), i)
    {
      Separate();
      var g, passable := Layout(), config.passableTiles;
      FlowView(i);
      NeighborSlot(i, BOTTOM);
      NeighborSlot(i, LEFT);
      NeighborSlot(i, RIGHT);
      ghost var caps := Capacities();
      ghost var nb, nl, nr := Neighbor(g, i, BOTTOM), Neighbor(g, i, LEFT), Neighbor(g, i, RIGHT);
      FlowWrites(i);
      tiles[i].UpdateFlow();
      ghost var after := FlowAt(g, passable, caps, i);
      forall j | 0 <= j < tiles.Length
        ensures CapacityOf(tiles[j]) == after[j]
      {
        FlowAtElement(g, passable, caps, i, j);
        if j == i || nb == Some(j) || nl == Some(j) || nr == Some(j) {
          NeighborsDistinct(g, i);
        }
      }
      assert Capacities() == after;
    }

    /**
     * One frame: the input manager polls the mouse and raises its events,
     * each handled in order as it is raised, then every tile applies the flow
     * rule once, in index order.
     */
    method Update(elapsedTimeMs: nat, current: MouseState)
      requires Valid()
      modifies this`hoveredTile, this`clickedTile, this`beamedTiles, Tiles()`Capacity, inputManager
      ensures Valid()
      ensures inputManager.Snapshot() == Poll(old(inputManager.Snapshot()), elapsedTimeMs, current).0
      ensures State() == Tick(Layout(), config.passableTiles, old(State()), Poll(old(inputManager.Snapshot()), elapsedTimeMs, current).1)
    {
      Separate();
      StateWellFormed();
      ghost var g, passable, st0 := Layout(), config.passableTiles, State();
      var events := inputManager.Update(elapsedTimeMs, current);
      assert Built(tiles.Length, true, true);
      assert State() == st0;
      DispatchAll(events);
      FlowAll();
    }

    /** Handles `events` in the order they were raised. */
    method DispatchAll(events: seq<InputEvent>)
      requires Valid()
      modifies this`hoveredTile, this`clickedTile, this`beamedTiles, Tiles()`Capacity
      ensures Valid()
      ensures State() == HandleAll(Layout(), config.passableTiles, old(State()), events)
    {
      StateWellFormed();
      ghost var g, passable, st0 := Layout(), config.passableTiles, State();
      for k := 0 to |events|
        invariant Valid()
        invariant State() == HandleAll(g, passable, st0, events[..k])
      {
        Dispatch(events[k]);
        HandleAllSnoc(g, passable, st0, events[..k], events[k]);
        assert events[..k + 1] == events[..k] + [events[k]];
      }
      assert events[..|events|] == events;
    }

    /** Every tile applies the flow rule once, in index order, each seeing the capacities the ones before it left. */
    method FlowAll()
      requires Valid()
      modifies Tiles()`Capacity
      ensures Valid()
      ensures State() == old(State()).(caps := FlowPass(Layout(), config.passableTiles, old(Capacities()), tiles.Length))
    {
      Separate();
      StateWellFormed();
      ghost var g, passable, st := Layout(), config.passableTiles, State();
      FlowLoop();
      assert AllNonNegative(Capacities()) by {
        FlowPassKeepsNonNegative(g, passable, st.caps, tiles.Length);
      }
      assert ImpassableEmpty(passable, Capacities()) by {
        FlowPassKeepsImpassableEmpty(g, passable, st.caps, tiles.Length);
      }
      assert State() == st.(caps := Capacities());
    }

    /** Runs every tile's flow rule once, in ascending index order, in place. */
    method FlowLoop()
      requires Built(tiles.Length, true, true)
      modifies Tiles()`Capacity
      ensures Built(tiles.Length, true, true)
      ensures Capacities() == FlowPass(Layout(), config.passableTiles, old(Capacities()), tiles.Length)
    {
      ghost var g, passable, caps := Layout(), config.passableTiles, Capacities();
      for i := 0 to tiles.Length
        invariant Built(tiles.Length, true, true)
        invariant Capacities() == FlowPass(g, passable, caps, i)
      {
        ghost var before := Capacities();
        FlowTile(i);
        assert Capacities() == FlowAt(g, passable, before, i);
      }
    }
  }
}
