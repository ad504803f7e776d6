/**
 * One cell of the fluid grid and its per-tick flow rule.
 *
 * The rule is first stated on values (`Flow` over the capacities of a tile and
 * of its bottom, left and right neighbours) and its properties are proved
 * there; the `LiquidTile` class then carries the in-place version, whose
 * contract ties the new capacities of the four objects to `Flow`.
 */
module LiquidTiles {
  import opened TileExtensions
  import opened Geometry
  import opened Numeric

  /** Fill level at which the gravity rule stops pouring into the tile below. */
  const FullCapacity: int := 255

  /**
   * Math.DivRem on a positive divisor: the quotient is truncated toward zero
   * and the remainder carries the dividend's sign.
   */
  function DivRem(a: int, b: int): (qr: (int, int))
    requires b > 0
    ensures qr.0 * b + qr.1 == a
    ensures 0 <= a ==> 0 <= qr.0 && 0 <= qr.1 < b
    ensures a < 0 ==> qr.0 <= 0 && -b < qr.1 <= 0
  {
    if a >= 0 then (a / b, a % b) else (-((-a) / b), -((-a) % b))
  }

  /** Capacities of a tile and of the three neighbours the flow rule may write; an absent neighbour reads 0. */
  datatype Cells = Cells(center: int, bottom: int, left: int, right: int)

  /** Which of those neighbours exist and are passable. */
  datatype Openings = Openings(bottom: bool, left: bool, right: bool)

  function Total(s: Cells): int {
    s.center + s.bottom + s.left + s.right
  }

  predicate NonNegative(s: Cells) {
    s.center >= 0 && s.bottom >= 0 && s.left >= 0 && s.right >= 0
  }

  /**
   * Gravity when the tile below is open but not empty: pour until it is full.
   * Only the tile and the one below are involved, and a closed or full tile
   * below takes nothing.
   */
  function Fall(s: Cells, open: Openings): (r: Cells)
    ensures r.left == s.left && r.right == s.right
    ensures !open.bottom || s.bottom >= FullCapacity ==> r == s
  {
    if open.bottom && s.bottom < FullCapacity then
      var flowAmount := Min(s.center, FullCapacity - s.bottom);
      s.(bottom := s.bottom + flowAmount, center := s.center - flowAmount)
    else s
  }

  /**
   * Lateral equalisation; the tile being processed keeps the remainder. The
   * tile below is not involved, a closed side is left alone, and with both
   * sides closed nothing changes.
   */
  function Spread(s: Cells, open: Openings): (r: Cells)
    ensures r.bottom == s.bottom
    ensures !open.left ==> r.left == s.left
    ensures !open.right ==> r.right == s.right
    ensures !open.left && !open.right ==> r == s
  {
    if open.left && open.right then
      var qr := DivRem(s.left + s.center + s.right, 3);
      s.(left := qr.0, right := qr.0, center := qr.0 + qr.1)
    else if open.left && !open.right then
      var qr := DivRem(s.left + s.center, 2);
      s.(left := qr.0, center := qr.0 + qr.1)
    else if open.right && !open.left then
      var qr := DivRem(s.center + s.right, 2);
      s.(center := qr.0 + qr.1, right := qr.0)
    else s
  }

  /**
   * One application of the flow rule: nothing happens to an empty tile; an
   * open empty tile below takes everything and ends the step; otherwise
   * gravity pours what fits and the lateral split follows. A neighbour that
   * is absent or impassable never receives or loses fluid.
   */
  function Flow(s: Cells, open: Openings): (r: Cells)
    ensures !open.bottom ==> r.bottom == s.bottom
    ensures !open.left ==> r.left == s.left
    ensures !open.right ==> r.right == s.right
  {
    if s.center == 0 then s
    else if open.bottom && s.bottom == 0 then Cells(0, s.center, s.left, s.right)
    else Spread(Fall(s, open), open)
  }

  lemma EmptyTileIsUnchanged(s: Cells, open: Openings)
    requires s.center == 0
    ensures Flow(s, open) == s
  {
  }

  /** The whole capacity drops into an open empty tile below, and the sides are left alone. */
  lemma FlowIntoEmptyBottom(s: Cells, open: Openings)
    requires s.center != 0 && open.bottom && s.bottom == 0
    ensures Flow(s, open) == Cells(0, s.center, s.left, s.right)
  {
  }

  /**
   * Into a partly full open tile below moves exactly what fits, never past
   * full, and the pair keeps its sum; a non-empty tile's whole flow step
   * leaves the tile below with that amount added.
   */
  lemma FallIntoPartlyFullBottom(s: Cells, open: Openings)
    requires open.bottom && 0 < s.bottom < FullCapacity
    ensures var r := Fall(s, open);
      && r.bottom == s.bottom + Min(s.center, FullCapacity - s.bottom)
      && r.center == s.center - Min(s.center, FullCapacity - s.bottom)
      && r.bottom <= FullCapacity
      && r.center + r.bottom == s.center + s.bottom
      && r.left == s.left && r.right == s.right
    ensures s.center != 0 ==>
      Flow(s, open).bottom == s.bottom + Min(s.center, FullCapacity - s.bottom)
  {
  }

  /** Both sides open: each side gets a third, the tile keeps a third plus the remainder. */
  lemma SpreadThreeWays(s: Cells, open: Openings)
    requires open.left && open.right
    requires s.left + s.center + s.right >= 0
    ensures var sum := s.left + s.center + s.right;
      var r := Spread(s, open);
      && r.left == sum / 3 && r.right == sum / 3
      && r.center == sum / 3 + sum % 3
      && r.left + r.center + r.right == sum
      && r.bottom == s.bottom
  {
  }

  /** Only the left side open: it gets half, the tile keeps half plus the remainder. */
  lemma SpreadLeft(s: Cells, open: Openings)
    requires open.left && !open.right
    requires s.left + s.center >= 0
    ensures var sum := s.left + s.center;
      var r := Spread(s, open);
      && r.left == sum / 2 && r.center == sum / 2 + sum % 2
      && r.left + r.center == sum
      && r.right == s.right && r.bottom == s.bottom
  {
  }

  /** Only the right side open: it gets half, the tile keeps half plus the remainder. */
  lemma SpreadRight(s: Cells, open: Openings)
    requires open.right && !open.left
    requires s.center + s.right >= 0
    ensures var sum := s.center + s.right;
      var r := Spread(s, open);
      && r.right == sum / 2 && r.center == sum / 2 + sum % 2
      && r.center + r.right == sum
      && r.left == s.left && r.bottom == s.bottom
  {
  }

  /** The four capacities keep their total, whatever the openings and signs. */
  lemma FlowConserves(s: Cells, open: Openings)
    ensures Total(Flow(s, open)) == Total(s)
  {
  }

  lemma FlowKeepsNonNegative(s: Cells, open: Openings)
    requires NonNegative(s)
    ensures NonNegative(Flow(s, open))
  {
  }

  /** A tile with no open neighbour, such as the only tile of a 1x1 grid, keeps its capacity. */
  lemma IsolatedTileIsUnchanged(s: Cells)
    ensures Flow(s, Openings(false, false, false)) == s
  {
  }

  /** Capacity of a neighbour slot, 0 when the slot is empty. */
  function CapacityOf(t: LiquidTile?): int
    reads t
  {
    if t == null then 0 else t.Capacity
  }

  /** Whether a neighbour slot holds a passable tile. */
  predicate IsOpen(t: LiquidTile?)
    reads t
  {
    t != null && t.Passable
  }

  class LiquidTile {
    const Rect: Rectangle
    var Capacity: int
    const Passable: bool
    const X: int
    const Y: int
    const Index: int
    /** Neighbour slots indexed by TileDirection; null where there is no neighbour. */
    const Neighbors: array<LiquidTile?>

    constructor (rectangle: Rectangle, capacity: int, x: int, y: int, index: int, passable: bool)
      ensures Rect == rectangle && Capacity == capacity && Passable == passable
      ensures X == x && Y == y && Index == index
      ensures fresh(Neighbors) && Neighbors.Length == DirectionCount
      ensures forall d :: 0 <= d < DirectionCount ==> Neighbors[d] == null
    {
      Rect := rectangle;
      Capacity := capacity;
      X := x;
      Y := y;
      Index := index;
      Passable := passable;
      Neighbors := new LiquidTile?[DirectionCount](_ => null);
    }

    /** The tile to the right: the slot a link made from the right-hand tile, as its left neighbour, writes back into. */
    function Right(): (r: LiquidTile?)
      reads Neighbors
      requires Neighbors.Length == DirectionCount
      ensures r == Neighbors[GetOpposite(LEFT)]
    {
      Neighbors[RIGHT]
    }

    /** The tile below: the slot a link made from the tile below, as its top neighbour, writes back into. */
    function Bottom(): (r: LiquidTile?)
      reads Neighbors
      requires Neighbors.Length == DirectionCount
      ensures r == Neighbors[GetOpposite(TOP)]
    {
      Neighbors[BOTTOM]
    }

    /** The tile to the left: the slot a link made from the left-hand tile, as its right neighbour, writes back into. */
    function Left(): (r: LiquidTile?)
      reads Neighbors
      requires Neighbors.Length == DirectionCount
      ensures r == Neighbors[GetOpposite(RIGHT)]
    {
      Neighbors[LEFT]
    }

    /** The tile above: the slot a link made from the tile above, as its bottom neighbour, writes back into; nothing reads it. */
    function Top(): (r: LiquidTile?)
      reads Neighbors
      requires Neighbors.Length == DirectionCount
      ensures r == Neighbors[GetOpposite(BOTTOM)]
    {
      Neighbors[TOP]
    }

    /** The neighbours UpdateFlow may write to. */
    function FlowTargets(): set<LiquidTile>
      reads Neighbors
      requires Neighbors.Length == DirectionCount
    {
      (if Bottom() == null then {} else {Bottom()}) +
      (if Left() == null then {} else {Left()}) +
      (if Right() == null then {} else {Right()})
    }

    /** This tile and its bottom, left and right neighbours are distinct objects. */
    predicate FlowTargetsDistinct()
      reads Neighbors
      requires Neighbors.Length == DirectionCount
    {
      this !in FlowTargets() &&
      (Bottom() != null ==> Bottom() != Left() && Bottom() != Right()) &&
      (Left() != null ==> Left() != Right())
    }

    /** The capacities UpdateFlow reads, as a value. */
    function Around(): Cells
      reads this, Neighbors, FlowTargets()
      requires Neighbors.Length == DirectionCount
    {
      Cells(Capacity, CapacityOf(Bottom()), CapacityOf(Left()), CapacityOf(Right()))
    }

    /** The passability UpdateFlow tests, as a value. */
    function Sides(): Openings
      reads Neighbors, FlowTargets()
      requires Neighbors.Length == DirectionCount
    {
      Openings(IsOpen(Bottom()), IsOpen(Left()), IsOpen(Right()))
    }

    /**
     * Links `neighbor` in slot `direction` and links this tile back in the
     * neighbour's opposite slot; a null neighbour changes nothing.
     */
    method AddNeighbor(neighbor: LiquidTile?, direction: TileDirection) returns (self: LiquidTile)
      requires Neighbors.Length == DirectionCount
      requires neighbor != null ==> neighbor.Neighbors.Length == DirectionCount
      requires neighbor != null && neighbor != this ==> neighbor.Neighbors != Neighbors
      modifies Neighbors, if neighbor == null then {} else {neighbor.Neighbors}
      ensures self == this
      ensures neighbor == null ==> unchanged(Neighbors)
      ensures neighbor != null ==> forall d :: 0 <= d < DirectionCount ==>
        Neighbors[d] == if d == direction then neighbor
                        else if neighbor == this && d == GetOpposite(direction) then this
                        else old(Neighbors[d])
      ensures neighbor != null && neighbor != this ==> forall d :: 0 <= d < DirectionCount ==>
        neighbor.Neighbors[d] == if d == GetOpposite(direction) then this else old(neighbor.Neighbors[d])
    {
      if neighbor == null {
        return this;
      }
      Neighbors[direction] := neighbor;
      neighbor.Neighbors[GetOpposite(direction)] := this;
      return this;
    }

    /**
     * The flow rule applied in place: the capacities of this tile and of its
     * bottom, left and right neighbours become what `Flow` gives for their old
     * values, and no other state changes.
     */
    method UpdateFlow()
      requires Neighbors.Length == DirectionCount
      requires FlowTargetsDistinct()
      modifies this`Capacity, FlowTargets()`Capacity
      ensures var r := Flow(old(Around()), old(Sides()));
        && Capacity == r.center
        && (Bottom() != null ==> Bottom().Capacity == r.bottom)
        && (Left() != null ==> Left().Capacity == r.left)
        && (Right() != null ==> Right().Capacity == r.right)
    {
      if Capacity == 0 {
        return;
      }
      var bottom := Bottom();
      ghost var before, open := Around(), Sides();

      if bottom != null && bottom.Passable {
        if bottom.Capacity == 0 {
          bottom.Capacity := Capacity;
          Capacity := 0;
          return;
        }
        if bottom.Capacity < FullCapacity {
          var flowAmount := Min(Capacity, FullCapacity - bottom.Capacity);
          bottom.Capacity := bottom.Capacity + flowAmount;
          Capacity := Capacity - flowAmount;
        }
      }
      assert Around() == Fall(before, open);
      SpreadSideways();
    }

    /**
     * The lateral step of the flow rule applied in place: this tile and its
     * open left and right neighbours share their liquid evenly, this tile
     * keeping the remainder.
     */
    method SpreadSideways()
      requires Neighbors.Length == DirectionCount
      requires FlowTargetsDistinct()
      modifies this`Capacity, FlowTargets()`Capacity
      ensures var r := Spread(old(Around()), old(Sides()));
        && Capacity == r.center
        && (Bottom() != null ==> Bottom().Capacity == r.bottom)
        && (Left() != null ==> Left().Capacity == r.left)
        && (Right() != null ==> Right().Capacity == r.right)
    {
      var left, right := Left(), Right();
      ghost var bottom, r := Bottom(), Spread(Around(), Sides());
      if left != null && right != null && left.Passable && right.Passable {
        var sum := left.Capacity + Capacity + right.Capacity;
        var qr := DivRem(sum, 3);
        left.Capacity := qr.0;
        right.Capacity := qr.0;
        Capacity := qr.0 + qr.1;
      } else if left != null && left.Passable && (right == null || !right.Passable) {
        var sum := left.Capacity + Capacity;
        var qr := DivRem(sum, 2);
        left.Capacity := qr.0;
        Capacity := qr.0 + qr.1;
      } else if right != null && right.Passable && (left == null || !left.Passable) {
        var sum := Capacity + right.Capacity;
        var qr := DivRem(sum, 2);
        Capacity := qr.0 + qr.1;
        right.Capacity := qr.0;
      }
    }
  }
}
