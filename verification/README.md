# sbad-water: a verified model of the fluid grid and its input layer

sbad-water is a small MonoGame toy. A rectangular grid of tiles holds an
integer amount of liquid each (`Capacity`). Every frame:

1. The input manager samples the mouse. It raises a move event when the
   pointer moved. For each of the two buttons it raises a released event on
   the pressed-to-released transition, and a pressed event on first contact
   and then every 200 ms while the button is held.
2. The grid handles those events. Hovering picks the tile under the pointer.
   A left press adds 500 to the hovered tile when it is passable. A right
   press "beams" the hovered tile's column from the hovered row down: it
   drains 100 from each passable tile, floored at 0, and stops at the first
   impassable tile.
   Releases forget the clicked or beamed tiles. Moving onto another tile
   with a button held re-presses that button there.
3. Every tile applies the flow rule once, in index order, in place.
   - Gravity comes first: liquid moves into an empty open tile below, or
     pours into a partly full one until it holds 255 or the tile above is
     empty.
   - Then lateral equalisation: a three-way or two-way integer split with
     the open left and right neighbours. The tile being processed keeps the
     remainder.

The model keeps the program's form.

- `LiquidTile`, `TileGrid` and `InputManager` are Dafny classes. They have
  the C# fields, and their methods update those fields in place.
  - `Neighbors` is a four-slot array of tile references.
  - The tiles live in an `array<LiquidTile?>`.
  - The input manager's dictionaries are `map`s.
- Each method is proved against a function on values that states what it
  does:
  - `Flow` on the four capacities a tile's flow rule touches;
  - `FlowAt`/`FlowPass` on the sequence of all capacities;
  - `Press`, `Release`, `Move`, `Handle` and `Tick` on a `GridState`;
  - `CheckButton` and `Poll` on the input manager's timers.
- The properties are lemmas about those functions: conservation,
  non-negativity, the exact effect of each gesture, event order, and the
  repeat timing of a held button.
- Grid construction is proved to link every tile to exactly its grid
  neighbours, mutually. `LinkIndex` describes which links exist after each
  creation step.
- The grid keeps impassable tiles empty. Tiles start at 0; the flow rule
  never moves liquid into or out of a closed neighbour; a left press fills
  only a passable tile; and the beam only drains. `TileGrid.Valid()`
  carries this as an invariant of the object.

Files:
- `wrappers.dfy`: `Option`.
- `numeric.dfy`: `Min` and `Max`, as `Math` gives them.
- `geometry.dfy`: `Point`, and `Rectangle` with its half-open containment test.
- `tile_extensions.dfy`: directions and `GetOpposite`.
- `grid_layout.dfy`: row-major indexing, grid neighbours, tile rectangles and the hover cell.
- `liquid_tile.dfy`: the flow rule and the `LiquidTile` class.
- `flow_pass.dfy`: the in-place pass over all tiles.
- `input_manager.dfy`: the button state machine and the `InputManager` class.
- `interaction.dfy`: the grid handlers on values.
- `tile_grid.dfy`: the config, construction and the `TileGrid` class.

Two facts about the C# code shape the model:
- The program has two buttons only. There is no build mode, no third
  button, and no passability editing. `Passable` never changes after
  construction.
- `Capacity` is never clamped to 255. A left press adds 500 unclamped, and
  an empty open tile below takes the whole capacity of the tile above. The
  model proves that capacities stay non-negative and places no upper bound
  on them.

## Model

| member | source | states |
|---|---|---|
| TileExtensions.GetOpposite | SBadWater/Tiles/TileExtensions.cs:7-12 | the opposite of a direction is a different direction, two further round the four values; LEFT and RIGHT are each other's opposite, as are TOP and BOTTOM |
| TileExtensions.OppositeInvolution | SBadWater/Tiles/TileExtensions.cs:9-11 | taking the opposite twice gives back the direction |
| GridLayout.RowOf | SBadWater/Tiles/TileGrid.cs:250 | the row of an index inside the grid is a row of the grid |
| GridLayout.RowBound | SBadWater/Tiles/TileGrid.cs:250 | an index inside the grid, divided by `Columns`, gives a row of the grid |
| GridLayout.ColOf | SBadWater/Tiles/TileGrid.cs:249 | the column of any index is a column of the grid |
| GridLayout.PositionInGrid | SBadWater/Tiles/TileGrid.cs:131 | `row * Columns + col` of a cell inside the grid indexes the tile array |
| GridLayout.DivModUnique | SBadWater/Tiles/TileGrid.cs:249-250 | dividing `row * Columns + col` by `Columns` gives back exactly the row, and the remainder exactly the column |
| GridLayout.IndexSplit | SBadWater/Tiles/TileGrid.cs:127-131 | every index of the grid is `row * Columns + col` for its own row and column, both inside the grid |
| GridLayout.Neighbor | SBadWater/Tiles/TileGrid.cs:137-147 | a neighbour index, when there is one, is inside the grid |
| GridLayout.NeighborIsAdjacent | SBadWater/Tiles/TileGrid.cs:137-147 | `j` is the neighbour of `i` in direction `d` if and only if `j` is one step from `i` in that direction, in row and column, so there are no diagonal links |
| GridLayout.NeighborSymmetric | SBadWater/Tiles/TileGrid.cs:137-147 | links are mutual: the neighbour in direction `d` has `i` as its neighbour in the opposite direction |
| GridLayout.NeighborPresence | SBadWater/Tiles/TileGrid.cs:137-147 | Top exists if and only if row > 0, Bottom if and only if row < Rows-1, Left if and only if col > 0, Right if and only if col < Columns-1 |
| GridLayout.NeighborsDistinct | SBadWater/Tiles/TileGrid.cs:137-147 | no tile is its own neighbour, and two directions never lead to the same tile |
| GridLayout.HoverIndex | SBadWater/Tiles/TileGrid.cs:207-215 | the cell computed from the pointer position, when there is one, is a cell of the grid |
| GridLayout.HoverIndexContains | SBadWater/Tiles/TileGrid.cs:132-135 | tile `i`'s rectangle `(120 + 10*col, 40 + 10*row, 10, 10)` contains the pointer if and only if `i` is the hover cell, so at most one tile contains it |
| LiquidTiles.DivRem | SBadWater/Tiles/LiquidTile.cs:91 | Math.DivRem: quotient times divisor plus remainder is the dividend, with the quotient truncated toward zero and the remainder taking the dividend's sign |
| LiquidTiles.Fall | SBadWater/Tiles/LiquidTile.cs:70-85 | gravity touches only the tile and the one below, never the sides; a closed tile below, or one already at 255 or more, takes nothing |
| LiquidTiles.Spread | SBadWater/Tiles/LiquidTile.cs:87-114 | the lateral step never touches the tile below; a closed side neither gives nor takes liquid, and with both sides closed nothing changes |
| LiquidTiles.Flow | SBadWater/Tiles/LiquidTile.cs:63-115 | an absent or impassable neighbour, below, left or right, neither receives nor loses liquid |
| LiquidTiles.EmptyTileIsUnchanged | SBadWater/Tiles/LiquidTile.cs:65-68 | a tile holding 0 changes nothing |
| LiquidTiles.FlowIntoEmptyBottom | SBadWater/Tiles/LiquidTile.cs:71-78 | an open empty tile below takes the whole capacity, the tile is left with 0 and the sides are untouched |
| LiquidTiles.FallIntoPartlyFullBottom | SBadWater/Tiles/LiquidTile.cs:79-84 | into an open tile below holding B with 0 < B < 255, exactly `min(C, 255 - B)` moves; the tile below ends at most 255 and the pair keeps its sum; for a non-empty tile the whole flow rule leaves the tile below at `B + min(C, 255 - B)` |
| LiquidTiles.SpreadThreeWays | SBadWater/Tiles/LiquidTile.cs:88-95 | with both sides open, each side gets `sum / 3`, the tile keeps `sum / 3 + sum % 3`, and the three-tile sum is kept |
| LiquidTiles.SpreadLeft | SBadWater/Tiles/LiquidTile.cs:98-104 | with only the left side open, it gets `sum / 2`, the tile keeps `sum / 2 + sum % 2`, and the pair sum is kept |
| LiquidTiles.SpreadRight | SBadWater/Tiles/LiquidTile.cs:108-114 | with only the right side open, it gets `sum / 2`, the tile keeps `sum / 2 + sum % 2`, and the pair sum is kept |
| LiquidTiles.FlowConserves | SBadWater/Tiles/LiquidTile.cs:63-115 | the four capacities keep their total, for any signs |
| LiquidTiles.FlowKeepsNonNegative | SBadWater/Tiles/LiquidTile.cs:63-115 | non-negative capacities stay non-negative |
| LiquidTiles.IsolatedTileIsUnchanged | SBadWater/Tiles/LiquidTile.cs:63-115 | a tile with no open neighbour, as in a 1x1 grid, keeps its capacity |
| LiquidTiles.LiquidTile.constructor | SBadWater/Tiles/LiquidTile.cs:42-53 | the tile holds the given rectangle, capacity, X, Y, index and passability, and a fresh four-slot neighbour array with every slot empty |
| LiquidTiles.LiquidTile.Right | SBadWater/Tiles/LiquidTile.cs:34 | the RIGHT slot of the neighbour array, the one `AddNeighbor` writes back into when the right-hand tile links this one as its LEFT neighbour |
| LiquidTiles.LiquidTile.Bottom | SBadWater/Tiles/LiquidTile.cs:35 | the BOTTOM slot of the neighbour array, the one `AddNeighbor` writes back into when the tile below links this one as its TOP neighbour |
| LiquidTiles.LiquidTile.Left | SBadWater/Tiles/LiquidTile.cs:36 | the LEFT slot of the neighbour array, the one `AddNeighbor` writes back into when the left-hand tile links this one as its RIGHT neighbour |
| LiquidTiles.LiquidTile.Top | SBadWater/Tiles/LiquidTile.cs:37 | the TOP slot of the neighbour array, the one `AddNeighbor` writes back into when the tile above links this one as its BOTTOM neighbour; nothing reads it, as in the C# |
| LiquidTiles.LiquidTile.AddNeighbor | SBadWater/Tiles/LiquidTile.cs:55-61 | a null neighbour changes nothing; otherwise slot `d` holds the neighbour, the neighbour's opposite slot holds this tile, and no other slot changes |
| LiquidTiles.LiquidTile.UpdateFlow | SBadWater/Tiles/LiquidTile.cs:63-115 | the capacities of this tile and its bottom, left and right neighbours become what `Flow` gives for their old values, and nothing else may change |
| LiquidTiles.LiquidTile.SpreadSideways | SBadWater/Tiles/LiquidTile.cs:87-114 | the lateral step in place: the capacities become what `Spread` gives for the old ones |
| FlowPasses.FlowAt | SBadWater/Tiles/TileGrid.cs:158 | one tile's step yields a capacity for every tile; what it writes is stated by FlowAtElement |
| FlowPasses.FlowPass | SBadWater/Tiles/TileGrid.cs:156-159 | the first `n` steps of the pass, in index order, yield a capacity for every tile |
| FlowPasses.FlowAtElement | SBadWater/Tiles/TileGrid.cs:156-159 | one tile's step in the pass writes that tile and its bottom, left and right neighbours with the `Flow` result, and leaves every other tile as it was |
| FlowPasses.FlowAtConserves | SBadWater/Tiles/TileGrid.cs:158 | one tile's step keeps the grid total |
| FlowPasses.FlowAtKeepsNonNegative | SBadWater/Tiles/TileGrid.cs:158 | one tile's step keeps every capacity non-negative |
| FlowPasses.FlowPassStepConserves | SBadWater/Tiles/TileGrid.cs:156-159 | each further step of the pass keeps the total of the step before |
| FlowPasses.FlowPassConserves | SBadWater/Tiles/TileGrid.cs:156-159 | the whole in-place pass keeps the grid total |
| FlowPasses.FlowPassKeepsNonNegative | SBadWater/Tiles/TileGrid.cs:156-159 | the whole pass keeps every capacity non-negative |
| FlowPasses.FlowAtKeepsImpassableEmpty | SBadWater/Tiles/LiquidTile.cs:63-115 | one tile's step leaves every impassable tile at 0: an empty tile moves nothing, and a closed neighbour is never written |
| FlowPasses.FlowPassKeepsImpassableEmpty | SBadWater/Tiles/TileGrid.cs:156-159 | the whole pass leaves every impassable tile at 0 |
| InputManagement.Decay | SBadWater/IO/InputManager.cs:67-80 | a non-negative cooldown only runs down, never below 0; the hold total only grows, unless both counters are cleared |
| InputManagement.CheckButton | SBadWater/IO/InputManager.cs:65-88 | one update of one button raises at most one event, about that button, and a cooldown in [0, maximum] stays there |
| InputManagement.ReleaseClearsTimer | SBadWater/IO/InputManager.cs:67-75 | on a pressed-to-released transition both counters become 0 and exactly one released event is raised |
| InputManagement.HoldDecays | SBadWater/IO/InputManager.cs:76-80 | while held, the cooldown becomes `max(cooldown - elapsed, 0)` and the hold total grows by the elapsed time |
| InputManagement.PressedWhenCooledDown | SBadWater/IO/InputManager.cs:83-87 | a pressed event is raised if and only if the button is down and the cooldown is 0; it carries the hold total and the cooldown restarts at its maximum |
| InputManagement.FirstPressReportsZero | SBadWater/IO/InputManager.cs:83-87 | from cleared counters, first contact raises one pressed event with hold 0 and sets the cooldown to its maximum |
| InputManagement.HoldRepeats | SBadWater/IO/InputManager.cs:76-87 | held through n updates of 1 ms, a button fires at updates 0, 200, 400, ..., each event carrying that hold; the hold total is n - 1 and the cooldown is what is left of the period |
| InputManagement.HoldFiveHundredMilliseconds | SBadWater/IO/InputManager.cs:76-87 | 500 updates of 1 ms give exactly three pressed events, with holds 0, 200 and 400 |
| InputManagement.Poll | SBadWater/IO/InputManager.cs:50-63 | the current sample becomes the remembered one, and one update raises at most three events |
| InputManagement.PollOrder | SBadWater/IO/InputManager.cs:54-62 | a move event comes first, and only when a previous sample exists and the position differs; every left-button event precedes every right-button event |
| InputManagement.InputManager.constructor | SBadWater/IO/InputManager.cs:32-41 | both buttons start with maximum cooldown 200, cooldown 0 and hold 0, and there is no mouse sample |
| InputManagement.InputManager.ResetCooldown | SBadWater/IO/InputManager.cs:45-48 | only that key's cooldown becomes 0; its hold total, other keys and the samples are unchanged |
| InputManagement.InputManager.CheckButtonPress | SBadWater/IO/InputManager.cs:65-88 | that key's timer and the events raised are what `CheckButton` gives; other keys and the samples are unchanged |
| InputManagement.InputManager.Update | SBadWater/IO/InputManager.cs:50-63 | the new remembered state and the events, in the order raised, are what `Poll` gives for the old state and the current sample |
| Interaction.Drain | SBadWater/Tiles/TileGrid.cs:258-259 | draining a beamed set yields a capacity for every tile; its per-tile effect is stated by DrainNeverRaises |
| Interaction.DrainNeverRaises | SBadWater/Tiles/TileGrid.cs:258-259 | a tile outside the beam keeps its capacity, and a non-negative capacity stays between 0 and its old value |
| Interaction.Press | SBadWater/Tiles/TileGrid.cs:229-267 | a press keeps every index of the state inside the grid and never changes the hovered tile |
| Interaction.Release | SBadWater/Tiles/TileGrid.cs:269-282 | a release changes no capacity and not the hover; the clicked tile is kept or cleared, and the beamed set only shrinks |
| Interaction.Move | SBadWater/Tiles/TileGrid.cs:202-227 | after a move the hovered tile is the hover cell of the pointer, and every index of the state is inside the grid |
| Interaction.Handle | SBadWater/Tiles/TileGrid.cs:202-282 | handling any event keeps every index of the state inside the grid, and a release changes no capacity |
| Interaction.HandleAll | SBadWater/Tiles/TileGrid.cs:154 | handling the events of one update in order keeps every index of the state inside the grid |
| Interaction.Tick | SBadWater/Tiles/TileGrid.cs:152-160 | one frame, handlers then flow pass, keeps every index of the state inside the grid |
| Interaction.BeamEnd | SBadWater/Tiles/TileGrid.cs:253-265 | the beam scan stops at the first impassable row of the column at or below the start, or at the bottom; every row before it is passable |
| Interaction.PressWithoutHoverIsNoop | SBadWater/Tiles/TileGrid.cs:231-234 | a press with no hovered tile changes nothing |
| Interaction.LeftPressInjects | SBadWater/Tiles/TileGrid.cs:236-243 | a left press clicks the hovered tile and adds exactly 500 to it, unclamped, only when it is passable; every other tile and the hover and beam are unchanged |
| Interaction.BeamRunIsPassablePrefix | SBadWater/Tiles/TileGrid.cs:253-265 | a tile is in the beam if and only if it is in the start column, at or below the start row, and every row from the start row to its own is passable |
| Interaction.RightPressBeams | SBadWater/Tiles/TileGrid.cs:245-266 | a right press makes the beamed set exactly the contiguous passable run down the hovered column, each beamed tile becomes `max(c - 100, 0)`, and every other tile, the hover and the click are unchanged |
| Interaction.ReleaseClearsOnlyItsOwn | SBadWater/Tiles/TileGrid.cs:269-282 | a left release clears only the clicked tile, a right release only the beamed set |
| Interaction.MoveHoversContainingTile | SBadWater/Tiles/TileGrid.cs:202-226 | after a move the hovered tile is the one whose rectangle contains the pointer, or none when no rectangle does; with no hover change, no button held, or the pointer off every tile, nothing else changes |
| Interaction.MoveDragPresses | SBadWater/Tiles/TileGrid.cs:217-225 | moving onto a new tile with a button held presses it there, left first: a held left button clicks the tile and adds 500 when it is passable; a held right button then beams exactly the passable run of its column from it down and drains each beamed tile by 100, floored at 0; every other tile keeps its capacity, and an unheld button's click or beam is kept |
| Interaction.PressKeepsNonNegative | SBadWater/Tiles/TileGrid.cs:229-267 | a press keeps every capacity non-negative |
| Interaction.HandleKeepsNonNegative | SBadWater/Tiles/TileGrid.cs:202-282 | handling any event keeps every capacity non-negative |
| Interaction.HandleAllKeepsNonNegative | SBadWater/Tiles/TileGrid.cs:154 | handling any sequence of events keeps every capacity non-negative |
| Interaction.TickFlowConserves | SBadWater/Tiles/TileGrid.cs:152-160 | the flow pass at the end of a frame keeps the total the handlers left |
| Interaction.TickKeepsNonNegative | SBadWater/Tiles/TileGrid.cs:152-160 | a whole frame, handlers and flow pass, keeps every capacity non-negative |
| Interaction.PressKeepsImpassableEmpty | SBadWater/Tiles/TileGrid.cs:229-267 | a press leaves every impassable tile at 0: the left press fills only a passable tile, and the beam only drains |
| Interaction.HandleKeepsImpassableEmpty | SBadWater/Tiles/TileGrid.cs:202-282 | handling any event, including the presses a drag makes, leaves every impassable tile at 0 |
| Interaction.HandleAllKeepsImpassableEmpty | SBadWater/Tiles/TileGrid.cs:154 | handling any sequence of events leaves every impassable tile at 0 |
| Interaction.TickKeepsImpassableEmpty | SBadWater/Tiles/TileGrid.cs:152-160 | a whole frame, handlers and flow pass, leaves every impassable tile at 0 |
| TileGrids.LinkIndex | SBadWater/Tiles/TileGrid.cs:137-147 | every link present at a creation step is the grid neighbour in that direction and points to a tile already created |
| TileGrids.LinkIndexLeft | SBadWater/Tiles/TileGrid.cs:137-141 | linking a new tile with the tile on its left adds exactly those two links, which are grid links |
| TileGrids.LinkIndexAbove | SBadWater/Tiles/TileGrid.cs:143-147 | linking a new tile with the tile above adds exactly those two links, which are grid links |
| TileGrids.TileGrid.constructor | SBadWater/Tiles/TileGrid.cs:109-121 | the new grid is valid: every tile exists and is linked; every capacity is 0, so impassable tiles are empty; nothing is hovered, clicked or beamed; and the input manager's timers are cleared |
| TileGrids.TileGrid.CreateTiles | SBadWater/Tiles/TileGrid.cs:125-150 | afterwards every slot holds its own tile with capacity 0, linked in every direction to exactly its grid neighbour |
| TileGrids.TileGrid.PlaceRow | SBadWater/Tiles/TileGrid.cs:129-149 | one pass of the column loop: the tiles of the row exist, newly made, and every tile so far is linked exactly as the grid says, with capacity 0; earlier slots keep their tiles |
| TileGrids.TileGrid.PlaceTile | SBadWater/Tiles/TileGrid.cs:129-148 | one loop step: the next tile exists and the tiles so far are linked among themselves exactly as the grid says, all with capacity 0 |
| TileGrids.TileGrid.NewTile | SBadWater/Tiles/TileGrid.cs:131-135 | tile `row * Columns + col` is created with capacity 0, X = col, Y = row, its rectangle and its passability, not yet linked |
| TileGrids.TileGrid.LinkLeft | SBadWater/Tiles/TileGrid.cs:137-141 | the new tile and the tile on its left, when there is one, are linked to each other |
| TileGrids.TileGrid.LinkAbove | SBadWater/Tiles/TileGrid.cs:143-147 | the new tile and the tile above, when there is one, are linked to each other |
| TileGrids.TileGrid.TileAtIndex | SBadWater/Tiles/TileGrid.cs:127-135 | in a built grid slot `i` holds a tile with Index `i`, X its column, Y its row, its rectangle, and the configured passability of cell `i` |
| TileGrids.TileGrid.NeighborSlot | SBadWater/Tiles/TileGrid.cs:137-147 | in a built grid each neighbour slot holds the tile of the grid neighbour in that direction, or null |
| TileGrids.TileGrid.NeighborAccessors | SBadWater/Tiles/LiquidTile.cs:34-37 | in a built grid `Right`, `Bottom`, `Left` and `Top` of tile `i` are the tiles of its grid neighbours in those directions, or null at the edge |
| TileGrids.TileGrid.LinksMutual | SBadWater/Tiles/TileGrid.cs:137-147 | a slot holds a tile exactly when the grid has a neighbour there; that tile carries the neighbour's index and links back in the opposite slot |
| TileGrids.TileGrid.FlowView | SBadWater/Tiles/TileGrid.cs:156-159 | what tile `i`'s flow rule reads in a built grid is what the value-level pass reads at index `i`, and the tiles it writes are distinct tiles of the grid |
| TileGrids.TileGrid.SameTile | SBadWater/Tiles/TileGrid.cs:217-225 | two tile references held by the grid are equal exactly when their indices are |
| TileGrids.TileGrid.SetTileCapacity | SBadWater/Tiles/LiquidTile.cs:17-25 | writing one tile's capacity changes that entry of the grid's capacities and no other |
| TileGrids.TileGrid.ButtonPressed | SBadWater/Tiles/TileGrid.cs:229-267 | the grid's state moves exactly as `Press` says and stays valid |
| TileGrids.TileGrid.BeamColumn | SBadWater/Tiles/TileGrid.cs:245-266 | the right-press branch moves the state exactly as `Press` with the right button says |
| TileGrids.TileGrid.BeamRun | SBadWater/Tiles/TileGrid.cs:253-265 | the scan beams exactly the column run that ends at `BeamEnd`, draining each of its tiles and no other |
| TileGrids.TileGrid.BeamNext | SBadWater/Tiles/TileGrid.cs:256-260 | one passable step of the scan: the beamed set and the drained capacities grow from the run ending at `row` to the run ending at `row + 1` |
| TileGrids.TileGrid.BeamTile | SBadWater/Tiles/TileGrid.cs:258-259 | one more tile is beamed and drained by 100, floored at 0; no other capacity changes |
| TileGrids.TileGrid.ButtonReleased | SBadWater/Tiles/TileGrid.cs:269-282 | the grid's state moves exactly as `Release` says and stays valid |
| TileGrids.TileGrid.MouseMoved | SBadWater/Tiles/TileGrid.cs:202-227 | the grid's state moves exactly as `Move` says and stays valid |
| TileGrids.TileGrid.FindHovered | SBadWater/Tiles/TileGrid.cs:207-215 | the search returns the grid's tile under the pointer, or null when there is none |
| TileGrids.TileGrid.Dispatch | SBadWater/Tiles/TileGrid.cs:115-118 | each event runs the handler its delegate is wired to, and the state moves as `Handle` says |
| TileGrids.TileGrid.DispatchAll | SBadWater/Tiles/TileGrid.cs:154 | the events of one update, handled in order, move the state as `HandleAll` says |
| TileGrids.TileGrid.FlowTile | SBadWater/Tiles/TileGrid.cs:158 | one tile's `UpdateFlow` inside the grid changes the capacities exactly as `FlowAt` says |
| TileGrids.TileGrid.FlowAll | SBadWater/Tiles/TileGrid.cs:156-159 | the loop over all tiles changes the capacities exactly as `FlowPass` says, and nothing else |
| TileGrids.TileGrid.FlowLoop | SBadWater/Tiles/TileGrid.cs:156-159 | after the loop over every tile in index order, the capacities are what `FlowPass` gives for the old ones, and the grid stays built |
| TileGrids.TileGrid.Update | SBadWater/Tiles/TileGrid.cs:152-160 | one frame: the input manager moves as `Poll` says, and the grid state moves as `Tick` says for the events raised; the grid stays valid |

## Left out

- Rendering has no behaviour the model could state. This covers
  `TileGrid.Draw`, `DrawBorder` and `DrawTileInfo`; the tile `Color`
  property; the colour update in the `Capacity` setter; `ApplyTheme`;
  `SetTheme`; and the textures, font and `Random` held by tiles and grid.
  Constructors take no theme, font or colour.
- `Demo.cs` and the UI theme files are presentation and host code, and are
  not part of this model.
- `TileGrid.LoadFromConfig` is file I/O and JSON. The config is a
  constructor parameter instead.
- Configs the C# code cannot run are excluded by the constructor's
  `ConfigFits` requirement (sizes non-negative, enough passability flags):
  - a `PassableTiles` list shorter than `Rows * Columns` throws while the
    tiles are created (TileGrid.cs:135);
  - a negative `Rows * Columns` throws at the array allocation
    (TileGrid.cs:114);
  - two negative sizes build an array with null slots, and the first
    `Update` throws on a null tile (TileGrid.cs:158).
  - One negative size with the other 0 is accepted by the C# code as an
    empty grid; `ConfigFits` excludes that case as well.
- `Mouse.GetState()` is not called. `InputManager.Update` takes the current
  mouse state as an argument.
- The delegates become events returned by `InputManager.Update`, which
  `TileGrid.Update` dispatches in the order raised.
  - The C# code runs each handler at the moment its event is raised.
  - The two orders agree because the handlers never read or write the
    input manager's state, and the input manager never reads the grid's.
- The `TileDirection` enum is not part of this model. Its four values are
  taken as 0..3, with opposite directions two apart: TOP 0, RIGHT 1,
  BOTTOM 2, LEFT 3. `GetOpposite` and the neighbour slots rely only on
  that.
- Per the C#, `Passable`, `X`, `Y`, `Index`, `Rectangle` and the
  `Neighbors` array reference can be set at any time. The model makes them
  `const`, because nothing in the code changes them after construction.
- 32-bit overflow of `int` capacities is not modelled. Capacities are
  unbounded integers.
- InputManagement.InputManager.Update: elapsed time is a natural number of
  milliseconds rather than a `float`, so float rounding and negative
  elapsed times are not modelled.
- TileGrids.TileGrid.Update: the same natural-millisecond elapsed time as
  the input manager.
