/**
 * What the grid's pointer handlers do, stated on values: the capacities, the
 * hovered and clicked tile and the beamed tiles, each tile named by its index.
 * The `TileGrid` handlers are proved to move their object state exactly as
 * these transitions say.
 */
module Interaction {
  import opened Wrappers
  import opened Geometry
  import opened Numeric
  import opened GridLayout
  import opened FlowPasses
  import opened InputManagement

  /** Fluid a left press adds to the clicked tile. */
  const InjectAmount: int := 500
  /** Fluid a right press drains from each beamed tile, stopping at 0. */
  const BeamDrain: int := 100

  datatype GridState = GridState(caps: seq<int>, hovered: Option<nat>, clicked: Option<nat>, beamed: set<nat>)

  predicate InGrid(g: Dims, o: Option<nat>) {
    o.Some? ==> o.value < g.Count()
  }

  /** Every index the state mentions is a tile of the grid. */
  predicate WellFormed(g: Dims, st: GridState) {
    |st.caps| == g.Count() && InGrid(g, st.hovered) && InGrid(g, st.clicked) &&
    forall j :: j in st.beamed ==> j < g.Count()
  }

  /** Whether the tile at (row, col) is passable. */
  predicate PassableAt(g: Dims, passable: seq<bool>, row: nat, col: nat)
    requires row < g.rows && col < g.columns && |passable| >= g.Count()
  {
    PositionInGrid(g, row, col);
    passable[row * g.columns + col]
  }

  /**
   * The row at which a beam going down column `col` from row `row` stops: the
   * first impassable row, or the number of rows when there is none.
   */
  function BeamEnd(g: Dims, passable: seq<bool>, col: nat, row: nat): (end: nat)
    requires col < g.columns && row <= g.rows && |passable| >= g.Count()
    ensures row <= end <= g.rows
    ensures forall r :: row <= r < end ==> PassableAt(g, passable, r, col)
    ensures end < g.rows ==> !PassableAt(g, passable, end, col)
    decreases g.rows - row
  {
    if row == g.rows then row
    else if !PassableAt(g, passable, row, col) then row
    else BeamEnd(g, passable, col, row + 1)
  }

  /** The tiles of column `col` in rows [row, end). */
  function ColumnRun(g: Dims, col: nat, row: nat, end: nat): set<nat> {
    set j | 0 <= j < g.Count() && g.columns > 0 && ColOf(g, j) == col && row <= RowOf(g, j) < end
  }

  /** Each tile in `beam` loses `BeamDrain`, floored at 0; the others keep their capacity. */
  function Drain(caps: seq<int>, beam: set<nat>): (r: seq<int>)
    ensures |r| == |caps|
  {
    seq(|caps|, j requires 0 <= j < |caps| => if j in beam then Max(caps[j] - BeamDrain, 0) else caps[j])
  }

  /**
   * A button press (real or synthesised) with the pointer on the hovered
   * tile; it never changes the hover and keeps every index inside the grid.
   */
  function Press(g: Dims, passable: seq<bool>, st: GridState, key: InputKey): (r: GridState)
    requires WellFormed(g, st) && |passable| >= g.Count()
    ensures WellFormed(g, r) && r.hovered == st.hovered
  {
    if st.hovered.None? then st
    else
      var h := st.hovered.value;
      if key == LeftButton then
        st.(clicked := Some(h), caps := if passable[h] then st.caps[h := st.caps[h] + InjectAmount] else st.caps)
      else
        IndexSplit(g, h);
        var col, row := ColOf(g, h), RowOf(g, h);
        var beam := ColumnRun(g, col, row, BeamEnd(g, passable, col, row));
        st.(beamed := beam, caps := Drain(st.caps, beam))
  }

  /** A button release only forgets: capacities and hover stay, nothing is clicked or beamed anew. */
  function Release(st: GridState, key: InputKey): (r: GridState)
    ensures r.caps == st.caps && r.hovered == st.hovered
    ensures r.clicked == st.clicked || r.clicked.None?
    ensures r.beamed <= st.beamed
  {
    if key == LeftButton then st.(clicked := None) else st.(beamed := {})
  }

  /** A pointer move: hover the tile under the pointer, then re-press each held button if the hover changed. */
  function Move(g: Dims, passable: seq<bool>, st: GridState, mouse: MouseState): (r: GridState)
    requires WellFormed(g, st) && |passable| >= g.Count()
    ensures WellFormed(g, r) && r.hovered == HoverIndex(g, mouse.position)
  {
    var hovered := HoverIndex(g, mouse.position);
    var st1 := st.(hovered := hovered);
    var st2 := if mouse.leftButton == Pressed && hovered != st.hovered then Press(g, passable, st1, LeftButton) else st1;
    if mouse.rightButton == Pressed && hovered != st.hovered then Press(g, passable, st2, RightButton) else st2
  }

  /** One event handled by the handler it is wired to; every index stays inside the grid. */
  function Handle(g: Dims, passable: seq<bool>, st: GridState, e: InputEvent): (r: GridState)
    requires WellFormed(g, st) && |passable| >= g.Count()
    ensures WellFormed(g, r)
    ensures e.ButtonReleasedEvent? ==> r.caps == st.caps
  {
    match e
    case ButtonPressedEvent(key, _) => Press(g, passable, st, key)
    case ButtonReleasedEvent(key) => Release(st, key)
    case MouseMovedEvent(mouse, _) => Move(g, passable, st, mouse)
  }

  /** Events handled one after another, in the order raised. */
  function HandleAll(g: Dims, passable: seq<bool>, st: GridState, events: seq<InputEvent>): (r: GridState)
    requires WellFormed(g, st) && |passable| >= g.Count()
    ensures WellFormed(g, r)
    decreases |events|
  {
    if events == [] then st
    else
      var st1 := Handle(g, passable, st, events[0]);
      HandleAll(g, passable, st1, events[1..])
  }

  /** Handling one more event after a sequence of events is handling that event last. */
  lemma {:induction false} HandleAllSnoc(g: Dims, passable: seq<bool>, st: GridState, events: seq<InputEvent>, e: InputEvent)
    requires WellFormed(g, st) && |passable| >= g.Count()
    ensures HandleAll(g, passable, st, events + [e]) == Handle(g, passable, HandleAll(g, passable, st, events), e)
    decreases |events|
  {
    if events == [] {
      assert events + [e] == [e];
      assert [e][1..] == [];
    } else {
      assert (events + [e])[0] == events[0];
      assert (events + [e])[1..] == events[1..] + [e];
      HandleAllSnoc(g, passable, Handle(g, passable, st, events[0]), events[1..], e);
    }
  }

  /** One tick after input polling: the events handled, then the flow pass over every tile. */
  function Tick(g: Dims, passable: seq<bool>, st: GridState, events: seq<InputEvent>): (r: GridState)
    requires WellFormed(g, st) && |passable| >= g.Count()
    ensures WellFormed(g, r)
  {
    var st1 := HandleAll(g, passable, st, events);
    st1.(caps := FlowPass(g, passable, st1.caps, g.Count()))
  }


  /** Going down the beam from `start`, the tile in row `row` is passable exactly while the beam goes on. */
  lemma BeamStep(g: Dims, passable: seq<bool>, col: nat, start: nat, row: nat)
    requires col < g.columns && start <= row < g.rows && |passable| >= g.Count()
    requires row <= BeamEnd(g, passable, col, start)
    ensures 0 <= row * g.columns + col < g.Count() <= |passable|
    ensures passable[row * g.columns + col] <==> row < BeamEnd(g, passable, col, start)
  {
    PositionInGrid(g, row, col);
    assert PassableAt(g, passable, row, col) == passable[row * g.columns + col];
  }

  /** Extending a column run by one row adds exactly the tile of that row, which was not in it. */
  lemma ColumnRunExtend(g: Dims, col: nat, start: nat, row: nat)
    requires col < g.columns && start <= row < g.rows
    ensures row * g.columns + col !in ColumnRun(g, col, start, row)
    ensures ColumnRun(g, col, start, row + 1) == ColumnRun(g, col, start, row) + {row * g.columns + col}
  {
    var k := row * g.columns + col;
    PositionInGrid(g, row, col);
    DivModUnique(g.columns, row, col, k);
    forall j ensures j in ColumnRun(g, col, start, row + 1) <==> j in ColumnRun(g, col, start, row) + {k} {
      if j in ColumnRun(g, col, start, row + 1) && RowOf(g, j) == row {
        IndexSplit(g, j);
      }
    }
  }

  /** Draining one more tile, not drained before, changes only that tile. */
  lemma DrainExtend(caps: seq<int>, beam: set<nat>, k: nat)
    requires k < |caps| && k !in beam
    ensures Drain(caps, beam + {k}) == Drain(caps, beam)[k := Max(caps[k] - BeamDrain, 0)]
  {
  }

  /**
   * Draining leaves a tile outside the beam as it was, never raises a
   * capacity and never makes a non-negative one negative.
   */
  lemma DrainNeverRaises(caps: seq<int>, beam: set<nat>, j: nat)
    requires j < |caps|
    ensures j !in beam ==> Drain(caps, beam)[j] == caps[j]
    ensures 0 <= caps[j] ==> 0 <= Drain(caps, beam)[j] <= caps[j]
  {
  }

  /** A press with no hovered tile changes nothing. */
  lemma PressWithoutHoverIsNoop(g: Dims, passable: seq<bool>, st: GridState, key: InputKey)
    requires WellFormed(g, st) && |passable| >= g.Count()
    requires st.hovered.None?
    ensures Press(g, passable, st, key) == st
  {
  }

  /**
   * A left press clicks the hovered tile and adds exactly 500 to it, with no
   * clamp, when it is passable; no other tile and no other state changes.
   */
  lemma LeftPressInjects(g: Dims, passable: seq<bool>, st: GridState, h: nat)
    requires WellFormed(g, st) && |passable| >= g.Count()
    requires st.hovered == Some(h)
    ensures var r := Press(g, passable, st, LeftButton);
      && r.clicked == Some(h) && r.hovered == st.hovered && r.beamed == st.beamed
      && |r.caps| == |st.caps|
      && r.caps[h] == st.caps[h] + (if passable[h] then InjectAmount else 0)
      && forall j :: 0 <= j < |st.caps| && j != h ==> r.caps[j] == st.caps[j]
  {
  }

  /**
   * The run ending at `BeamEnd` is exactly the tiles of the column, from the
   * start row down, whose rows from the start row to their own are all passable.
   */
  lemma BeamRunIsPassablePrefix(g: Dims, passable: seq<bool>, col: nat, row: nat, j: nat)
    requires col < g.columns && row < g.rows && |passable| >= g.Count()
    ensures j in ColumnRun(g, col, row, BeamEnd(g, passable, col, row)) <==>
      && j < g.Count()
      && ColOf(g, j) == col
      && row <= RowOf(g, j)
      && forall r :: row <= r <= RowOf(g, j) ==> PassableAt(g, passable, r, col)
  {
    var end := BeamEnd(g, passable, col, row);
    var run := ColumnRun(g, col, row, end);
    if j < g.Count() && ColOf(g, j) == col && row <= RowOf(g, j) {
      var rj := RowOf(g, j);
      assert j in run <==> rj < end;
      if rj < end {
        assert forall r :: row <= r <= rj ==> PassableAt(g, passable, r, col);
      } else {
        IndexSplit(g, j);
        assert end < g.rows && !PassableAt(g, passable, end, col);
        assert !(forall r :: row <= r <= rj ==> PassableAt(g, passable, r, col));
      }
    } else {
      assert j !in run;
    }
  }

  /**
   * A right press beams exactly the tiles of the hovered column from the
   * hovered row down whose rows, from the hovered one to their own, are all
   * passable: the run stops at the first impassable tile. Each beamed tile
   * loses 100, floored at 0; nothing else changes.
   */
  lemma RightPressBeams(g: Dims, passable: seq<bool>, st: GridState, h: nat)
    requires WellFormed(g, st) && |passable| >= g.Count()
    requires st.hovered == Some(h)
    ensures g.columns > 0
    ensures var r := Press(g, passable, st, RightButton);
      && r.clicked == st.clicked && r.hovered == st.hovered
      && (forall j: nat :: j in r.beamed <==>
            && j < g.Count()
            && ColOf(g, j) == ColOf(g, h)
            && RowOf(g, h) <= RowOf(g, j)
            && forall row :: RowOf(g, h) <= row <= RowOf(g, j) ==> PassableAt(g, passable, row, ColOf(g, h)))
      && |r.caps| == |st.caps|
      && forall j :: 0 <= j < |st.caps| ==>
           r.caps[j] == if j in r.beamed then Max(st.caps[j] - BeamDrain, 0) else st.caps[j]
  {
    IndexSplit(g, h);
    var col, row := ColOf(g, h), RowOf(g, h);
    var r := Press(g, passable, st, RightButton);
    var beam := ColumnRun(g, col, row, BeamEnd(g, passable, col, row));
    assert r == st.(beamed := beam, caps := Drain(st.caps, beam));
    forall j: nat ensures j in beam <==>
            && j < g.Count()
            && ColOf(g, j) == col
            && row <= RowOf(g, j)
            && forall row' :: row <= row' <= RowOf(g, j) ==> PassableAt(g, passable, row', col)
    {
      BeamRunIsPassablePrefix(g, passable, col, row, j);
    }
  }

  /** A right press beams exactly the column run below the hovered tile and drains it. */
  lemma RightPressResult(g: Dims, passable: seq<bool>, st: GridState, h: nat, beamed: set<nat>, caps: seq<int>)
    requires WellFormed(g, st) && |passable| >= g.Count()
    requires st.hovered == Some(h) && g.columns > 0
    requires beamed == ColumnRun(g, ColOf(g, h), RowOf(g, h), BeamEnd(g, passable, ColOf(g, h), RowOf(g, h)))
    requires caps == Drain(st.caps, beamed)
    ensures Press(g, passable, st, RightButton) == st.(beamed := beamed, caps := caps)
  {
  }

  /** A left release forgets the clicked tile and a right release the beamed tiles, and nothing else changes. */
  lemma ReleaseClearsOnlyItsOwn(st: GridState, key: InputKey)
    ensures key == LeftButton ==> Release(st, key) == st.(clicked := None)
    ensures key == RightButton ==> Release(st, key) == st.(beamed := {})
  {
  }

  /**
   * A move hovers the tile whose rectangle contains the pointer, or none; when
   * the hover did not change, or no button is held, nothing else changes.
   */
  lemma MoveHoversContainingTile(g: Dims, passable: seq<bool>, st: GridState, mouse: MouseState)
    requires WellFormed(g, st) && |passable| >= g.Count()
    ensures var r := Move(g, passable, st, mouse);
      && (forall i :: 0 <= i < g.Count() ==> (r.hovered == Some(i) <==> TileRect(g, i).Contains(mouse.position)))
      && (r.hovered.None? ==> forall i :: 0 <= i < g.Count() ==> !TileRect(g, i).Contains(mouse.position))
      && (r.hovered == st.hovered || (mouse.leftButton == Released && mouse.rightButton == Released) ==>
            r == st.(hovered := r.hovered))
      && (r.hovered.None? ==> r == st.(hovered := None))
  {
    forall i | 0 <= i < g.Count()
      ensures HoverIndex(g, mouse.position) == Some(i) <==> TileRect(g, i).Contains(mouse.position)
    {
      HoverIndexContains(g, mouse.position, i);
    }
  }

  /**
   * A drag: when the pointer moves onto tile `h` from another tile or from
   * outside the grid, each held button is pressed again on `h`, the left one
   * first. The left press clicks `h` and adds 500 when it is passable; the
   * right press then beams the passable run of `h`'s column from `h` down and
   * drains it, floored at 0.
   */
  lemma MoveDragPresses(g: Dims, passable: seq<bool>, st: GridState, mouse: MouseState, h: nat)
    requires WellFormed(g, st) && |passable| >= g.Count()
    requires HoverIndex(g, mouse.position) == Some(h) && st.hovered != Some(h)
    ensures h < g.Count() && g.columns > 0
    ensures var r := Move(g, passable, st, mouse);
      && r.hovered == Some(h)
      && r.clicked == (if mouse.leftButton == Pressed then Some(h) else st.clicked)
      && (mouse.rightButton != Pressed ==> r.beamed == st.beamed)
      && (mouse.rightButton == Pressed ==> forall j: nat :: j in r.beamed <==>
            && j < g.Count()
            && ColOf(g, j) == ColOf(g, h)
            && RowOf(g, h) <= RowOf(g, j)
            && forall row :: RowOf(g, h) <= row <= RowOf(g, j) ==> PassableAt(g, passable, row, ColOf(g, h)))
      && |r.caps| == |st.caps|
      && forall j :: 0 <= j < |st.caps| ==>
           var injected := st.caps[j] + (if mouse.leftButton == Pressed && j == h && passable[h] then InjectAmount else 0);
           r.caps[j] == if mouse.rightButton == Pressed && j in r.beamed then Max(injected - BeamDrain, 0) else injected
  {
    var st1 := st.(hovered := Some(h));
    var st2 := if mouse.leftButton == Pressed then Press(g, passable, st1, LeftButton) else st1;
    var r := Move(g, passable, st, mouse);
    assert r == if mouse.rightButton == Pressed then Press(g, passable, st2, RightButton) else st2;
    if mouse.leftButton == Pressed {
      LeftPressInjects(g, passable, st1, h);
    }
    if mouse.rightButton == Pressed {
      RightPressBeams(g, passable, st2, h);
    }
    forall j | 0 <= j < |st.caps|
      ensures r.caps[j] ==
        var injected := st.caps[j] + (if mouse.leftButton == Pressed && j == h && passable[h] then InjectAmount else 0);
        if mouse.rightButton == Pressed && j in r.beamed then Max(injected - BeamDrain, 0) else injected
    {
    }
  }

  lemma PressKeepsNonNegative(g: Dims, passable: seq<bool>, st: GridState, key: InputKey)
    requires WellFormed(g, st) && |passable| >= g.Count()
    requires AllNonNegative(st.caps)
    ensures AllNonNegative(Press(g, passable, st, key).caps)
  {
    if st.hovered.Some? && key == RightButton {
      var r := Press(g, passable, st, key);
      forall j | 0 <= j < |r.caps| ensures r.caps[j] >= 0 {
      }
    }
  }

  /** Press, release and move keep every capacity non-negative. */
  lemma HandleKeepsNonNegative(g: Dims, passable: seq<bool>, st: GridState, e: InputEvent)
    requires WellFormed(g, st) && |passable| >= g.Count()
    requires AllNonNegative(st.caps)
    ensures AllNonNegative(Handle(g, passable, st, e).caps)
  {
    match e
    case ButtonPressedEvent(key, _) =>
      PressKeepsNonNegative(g, passable, st, key);
    case ButtonReleasedEvent(key) =>
    case MouseMovedEvent(mouse, _) =>
      var hovered := HoverIndex(g, mouse.position);
      var st1 := st.(hovered := hovered);
      PressKeepsNonNegative(g, passable, st1, LeftButton);
      var st2 := if mouse.leftButton == Pressed && hovered != st.hovered then Press(g, passable, st1, LeftButton) else st1;
      PressKeepsNonNegative(g, passable, st2, RightButton);
  }

  lemma {:induction false} HandleAllKeepsNonNegative(g: Dims, passable: seq<bool>, st: GridState, events: seq<InputEvent>)
    requires WellFormed(g, st) && |passable| >= g.Count()
    requires AllNonNegative(st.caps)
    ensures AllNonNegative(HandleAll(g, passable, st, events).caps)
    decreases |events|
  {
    if events != [] {
      HandleKeepsNonNegative(g, passable, st, events[0]);
      HandleAllKeepsNonNegative(g, passable, Handle(g, passable, st, events[0]), events[1..]);
    }
  }

  /** The flow pass at the end of a tick keeps the total the handlers left. */
  lemma TickFlowConserves(g: Dims, passable: seq<bool>, st: GridState, events: seq<InputEvent>)
    requires WellFormed(g, st) && |passable| >= g.Count()
    ensures Sum(Tick(g, passable, st, events).caps) == Sum(HandleAll(g, passable, st, events).caps)
  {
    var st1 := HandleAll(g, passable, st, events);
    FlowPassConserves(g, passable, st1.caps, g.Count());
  }

  /** A whole tick, handlers and flow pass, keeps every capacity non-negative. */
  lemma TickKeepsNonNegative(g: Dims, passable: seq<bool>, st: GridState, events: seq<InputEvent>)
    requires WellFormed(g, st) && |passable| >= g.Count()
    requires AllNonNegative(st.caps)
    ensures AllNonNegative(Tick(g, passable, st, events).caps)
  {
    var st1 := HandleAll(g, passable, st, events);
    HandleAllKeepsNonNegative(g, passable, st, events);
    FlowPassKeepsNonNegative(g, passable, st1.caps, g.Count());
  }

  /**
   * A press keeps impassable tiles empty: the left press adds liquid only to
   * a passable tile, and the beam drains, floored at 0, but never fills.
   */
  lemma PressKeepsImpassableEmpty(g: Dims, passable: seq<bool>, st: GridState, key: InputKey)
    requires WellFormed(g, st) && |passable| >= g.Count()
    requires ImpassableEmpty(passable, st.caps)
    ensures ImpassableEmpty(passable, Press(g, passable, st, key).caps)
  {
    if st.hovered.Some? && key == RightButton {
      var r := Press(g, passable, st, key);
      forall j | 0 <= j < |r.caps| && j < |passable| && !passable[j] ensures r.caps[j] == 0 {
      }
    }
  }

  /** Press, release and move keep impassable tiles empty. */
  lemma HandleKeepsImpassableEmpty(g: Dims, passable: seq<bool>, st: GridState, e: InputEvent)
    requires WellFormed(g, st) && |passable| >= g.Count()
    requires ImpassableEmpty(passable, st.caps)
    ensures ImpassableEmpty(passable, Handle(g, passable, st, e).caps)
  {
    match e
    case ButtonPressedEvent(key, _) =>
      PressKeepsImpassableEmpty(g, passable, st, key);
    case ButtonReleasedEvent(key) =>
    case MouseMovedEvent(mouse, _) =>
      var hovered := HoverIndex(g, mouse.position);
      var st1 := st.(hovered := hovered);
      PressKeepsImpassableEmpty(g, passable, st1, LeftButton);
      var st2 := if mouse.leftButton == Pressed && hovered != st.hovered then Press(g, passable, st1, LeftButton) else st1;
      PressKeepsImpassableEmpty(g, passable, st2, RightButton);
  }

  lemma {:induction false} HandleAllKeepsImpassableEmpty(g: Dims, passable: seq<bool>, st: GridState, events: seq<InputEvent>)
    requires WellFormed(g, st) && |passable| >= g.Count()
    requires ImpassableEmpty(passable, st.caps)
    ensures ImpassableEmpty(passable, HandleAll(g, passable, st, events).caps)
    decreases |events|
  {
    if events != [] {
      HandleKeepsImpassableEmpty(g, passable, st, events[0]);
      HandleAllKeepsImpassableEmpty(g, passable, Handle(g, passable, st, events[0]), events[1..]);
    }
  }

  /** A whole tick, handlers and flow pass, keeps impassable tiles empty. */
  lemma TickKeepsImpassableEmpty(g: Dims, passable: seq<bool>, st: GridState, events: seq<InputEvent>)
    requires WellFormed(g, st) && |passable| >= g.Count()
    requires ImpassableEmpty(passable, st.caps)
    ensures ImpassableEmpty(passable, Tick(g, passable, st, events).caps)
  {
    var st1 := HandleAll(g, passable, st, events);
    HandleAllKeepsImpassableEmpty(g, passable, st, events);
    FlowPassKeepsImpassableEmpty(g, passable, st1.caps, g.Count());
  }
}
