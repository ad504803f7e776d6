/**
 * The per-tick flow pass over a whole grid, stated on the sequence of tile
 * capacities: `FlowAt` applies the flow rule at one index, `FlowPass` applies
 * it at indices 0, 1, ... in turn, each step seeing the capacities the
 * previous steps left (a single in-place sweep, not a double buffer).
 */
module FlowPasses {
  import opened Wrappers
  import opened TileExtensions
  import opened GridLayout
  import opened LiquidTiles

  function Sum(s: seq<int>): int {
    if s == [] then 0 else Sum(s[..|s| - 1]) + s[|s| - 1]
  }

  predicate AllNonNegative(s: seq<int>) {
    forall j :: 0 <= j < |s| ==> s[j] >= 0
  }

  /** Every tile configured impassable holds no liquid. */
  predicate ImpassableEmpty(passable: seq<bool>, caps: seq<int>) {
    forall j :: 0 <= j < |caps| && j < |passable| && !passable[j] ==> caps[j] == 0
  }

  /** Changing one element changes the sum by the difference. */
  lemma {:induction false} SumUpdate(s: seq<int>, j: nat, v: int)
    requires j < |s|
    ensures Sum(s[j := v]) == Sum(s) - s[j] + v
  {
    var n := |s| - 1;
    if j < n {
      SumUpdate(s[..n], j, v);
      assert s[j := v][..n] == s[..n][j := v];
    } else {
      assert s[j := v][..n] == s[..n];
    }
  }

  /** Capacity found through an optional neighbour index, 0 when absent. */
  function ValueAt(caps: seq<int>, o: Option<nat>): int {
    if o.Some? && o.value < |caps| then caps[o.value] else 0
  }

  /** Whether an optional neighbour index names a place in `caps`. */
  predicate InRange(caps: seq<int>, o: Option<nat>) {
    o.Some? && o.value < |caps|
  }

  /** Whether an optional neighbour index names a passable tile. */
  predicate OpenAt(passable: seq<bool>, o: Option<nat>) {
    o.Some? && o.value < |passable| && passable[o.value]
  }

  /** Writes `v` through an optional neighbour index; an absent neighbour is not written. */
  function Put(caps: seq<int>, o: Option<nat>, v: int): (r: seq<int>)
    ensures |r| == |caps|
  {
    if o.Some? && o.value < |caps| then caps[o.value := v] else caps
  }

  function CellsAt(g: Dims, caps: seq<int>, i: nat): Cells
    requires i < g.Count() == |caps|
  {
    Cells(caps[i],
          ValueAt(caps, Neighbor(g, i, BOTTOM)),
          ValueAt(caps, Neighbor(g, i, LEFT)),
          ValueAt(caps, Neighbor(g, i, RIGHT)))
  }

  function OpeningsAt(g: Dims, passable: seq<bool>, i: nat): Openings
    requires i < g.Count()
  {
    Openings(OpenAt(passable, Neighbor(g, i, BOTTOM)),
             OpenAt(passable, Neighbor(g, i, LEFT)),
             OpenAt(passable, Neighbor(g, i, RIGHT)))
  }

  /** Writes a tile and its bottom, left and right neighbours, in that order. */
  function Scatter(caps: seq<int>, i: nat, nb: Option<nat>, nl: Option<nat>, nr: Option<nat>, c: Cells): (r: seq<int>)
    requires i < |caps|
    ensures |r| == |caps|
  {
    Put(Put(Put(Put(caps, Some(i), c.center), nb, c.bottom), nl, c.left), nr, c.right)
  }

  /** The flow rule applied at tile `i` of the grid. */
  function FlowAt(g: Dims, passable: seq<bool>, caps: seq<int>, i: nat): (r: seq<int>)
    requires i < g.Count() == |caps|
    ensures |r| == |caps|
  {
    Scatter(caps, i, Neighbor(g, i, BOTTOM), Neighbor(g, i, LEFT), Neighbor(g, i, RIGHT),
            Flow(CellsAt(g, caps, i), OpeningsAt(g, passable, i)))
  }

  /** Tiles 0 .. n-1 processed in ascending order, in place. */
  function FlowPass(g: Dims, passable: seq<bool>, caps: seq<int>, n: nat): (r: seq<int>)
    requires n <= g.Count() == |caps|
    ensures |r| == |caps|
  {
    if n == 0 then caps else FlowAt(g, passable, FlowPass(g, passable, caps, n - 1), n - 1)
  }

  /**
   * Element by element, `FlowAt` writes the new value of tile `i` and of its
   * bottom, left and right neighbours, and leaves every other tile as it was.
   */
  lemma FlowAtElement(g: Dims, passable: seq<bool>, caps: seq<int>, i: nat, j: nat)
    requires i < g.Count() == |caps| && j < |caps|
    ensures var c := Flow(CellsAt(g, caps, i), OpeningsAt(g, passable, i));
      FlowAt(g, passable, caps, i)[j] ==
        if j == i then c.center
        else if Neighbor(g, i, BOTTOM) == Some(j) then c.bottom
        else if Neighbor(g, i, LEFT) == Some(j) then c.left
        else if Neighbor(g, i, RIGHT) == Some(j) then c.right
        else caps[j]
  {
    NeighborsDistinct(g, i);
  }

  /** Writing through an optional index changes the sum by the difference at that index. */
  lemma PutSum(s: seq<int>, o: Option<nat>, v: int)
    ensures Sum(Put(s, o, v)) == Sum(s) - ValueAt(s, o) + (if InRange(s, o) then v else 0)
  {
    if InRange(s, o) {
      SumUpdate(s, o.value, v);
    }
  }

  /** Reading back through an optional index after a write through another. */
  lemma PutValueAt(s: seq<int>, o: Option<nat>, v: int, o2: Option<nat>)
    ensures ValueAt(Put(s, o, v), o2) ==
      if !InRange(s, o2) then 0 else if o2 == o then v else ValueAt(s, o2)
  {
  }

  /**
   * Scattering new values over four distinct places keeps the total when the
   * new values add up to the old ones and nothing is written to an absent place.
   */
  lemma ScatterConserves(caps: seq<int>, i: nat, nb: Option<nat>, nl: Option<nat>, nr: Option<nat>, c: Cells)
    requires i < |caps|
    requires nb != Some(i) && nl != Some(i) && nr != Some(i)
    requires nb.Some? ==> nb != nl && nb != nr
    requires nl.Some? ==> nl != nr
    requires !InRange(caps, nb) ==> c.bottom == 0
    requires !InRange(caps, nl) ==> c.left == 0
    requires !InRange(caps, nr) ==> c.right == 0
    requires Total(c) == caps[i] + ValueAt(caps, nb) + ValueAt(caps, nl) + ValueAt(caps, nr)
    ensures Sum(Scatter(caps, i, nb, nl, nr, c)) == Sum(caps)
  {
    var s0 := Put(caps, Some(i), c.center);
    PutSum(caps, Some(i), c.center);
    PutValueAt(caps, Some(i), c.center, nb);
    PutValueAt(caps, Some(i), c.center, nl);
    PutValueAt(caps, Some(i), c.center, nr);
    var s1 := Put(s0, nb, c.bottom);
    PutSum(s0, nb, c.bottom);
    PutValueAt(s0, nb, c.bottom, nl);
    PutValueAt(s0, nb, c.bottom, nr);
    var s2 := Put(s1, nl, c.left);
    PutSum(s1, nl, c.left);
    PutValueAt(s1, nl, c.left, nr);
    PutSum(s2, nr, c.right);
  }

  /** One application of the rule keeps the grid total. */
  lemma FlowAtConserves(g: Dims, passable: seq<bool>, caps: seq<int>, i: nat)
    requires i < g.Count() == |caps|
    ensures Sum(FlowAt(g, passable, caps, i)) == Sum(caps)
  {
    NeighborsDistinct(g, i);
    var s, open := CellsAt(g, caps, i), OpeningsAt(g, passable, i);
    FlowConserves(s, open);
    ScatterConserves(caps, i, Neighbor(g, i, BOTTOM), Neighbor(g, i, LEFT), Neighbor(g, i, RIGHT), Flow(s, open));
  }

  lemma FlowAtKeepsNonNegative(g: Dims, passable: seq<bool>, caps: seq<int>, i: nat)
    requires i < g.Count() == |caps|
    requires AllNonNegative(caps)
    ensures AllNonNegative(FlowAt(g, passable, caps, i))
  {
    FlowKeepsNonNegative(CellsAt(g, caps, i), OpeningsAt(g, passable, i));
    forall j | 0 <= j < |caps| ensures FlowAt(g, passable, caps, i)[j] >= 0 {
      FlowAtElement(g, passable, caps, i, j);
    }
  }

  /** One more step of the pass keeps the total of the step before. */
  lemma FlowPassStepConserves(g: Dims, passable: seq<bool>, caps: seq<int>, n: nat)
    requires 0 < n <= g.Count() == |caps|
    ensures Sum(FlowPass(g, passable, caps, n)) == Sum(FlowPass(g, passable, caps, n - 1))
  {
    FlowAtConserves(g, passable, FlowPass(g, passable, caps, n - 1), n - 1);
  }

  /** The whole pass keeps the grid total. */
  lemma {:induction false} FlowPassConserves(g: Dims, passable: seq<bool>, caps: seq<int>, n: nat)
    requires n <= g.Count() == |caps|
    ensures Sum(FlowPass(g, passable, caps, n)) == Sum(caps)
  {
    if n > 0 {
      FlowPassConserves(g, passable, caps, n - 1);
      FlowPassStepConserves(g, passable, caps, n);
    }
  }

  /** The whole pass keeps every capacity non-negative. */
  lemma {:induction false} FlowPassKeepsNonNegative(g: Dims, passable: seq<bool>, caps: seq<int>, n: nat)
    requires n <= g.Count() == |caps|
    requires AllNonNegative(caps)
    ensures AllNonNegative(FlowPass(g, passable, caps, n))
  {
    if n > 0 {
      var before := FlowPass(g, passable, caps, n - 1);
      FlowPassKeepsNonNegative(g, passable, caps, n - 1);
      FlowAtKeepsNonNegative(g, passable, before, n - 1);
      assert FlowPass(g, passable, caps, n) == FlowAt(g, passable, before, n - 1);
    }
  }

  /**
   * One application of the rule keeps impassable tiles empty: an empty tile
   * changes nothing, and a closed neighbour neither receives nor loses liquid.
   */
  lemma FlowAtKeepsImpassableEmpty(g: Dims, passable: seq<bool>, caps: seq<int>, i: nat)
    requires i < g.Count() == |caps| && |passable| >= g.Count()
    requires ImpassableEmpty(passable, caps)
    ensures ImpassableEmpty(passable, FlowAt(g, passable, caps, i))
  {
    var s, open := CellsAt(g, caps, i), OpeningsAt(g, passable, i);
    if !passable[i] {
      EmptyTileIsUnchanged(s, open);
    }
    forall j | 0 <= j < |caps| && !passable[j] ensures FlowAt(g, passable, caps, i)[j] == 0 {
      FlowAtElement(g, passable, caps, i, j);
    }
  }

  /** The whole pass keeps impassable tiles empty. */
  lemma {:induction false} FlowPassKeepsImpassableEmpty(g: Dims, passable: seq<bool>, caps: seq<int>, n: nat)
    requires n <= g.Count() == |caps| && |passable| >= g.Count()
    requires ImpassableEmpty(passable, caps)
    ensures ImpassableEmpty(passable, FlowPass(g, passable, caps, n))
  {
    if n > 0 {
      var before := FlowPass(g, passable, caps, n - 1);
      FlowPassKeepsImpassableEmpty(g, passable, caps, n - 1);
      FlowAtKeepsImpassableEmpty(g, passable, before, n - 1);
      assert FlowPass(g, passable, caps, n) == FlowAt(g, passable, before, n - 1);
    }
  }
}
