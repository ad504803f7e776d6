/**
 * Directions of a tile's four neighbour slots and the opposite-direction map.
 * The enum itself is not part of this model: its four values are taken as
 * consecutive integers 0..3 in which opposite sides are two apart, which is
 * what the four-slot neighbour array and the linking code rely on.
 */
module TileExtensions {
  /** Number of values of the direction enum. */
  const DirectionCount: nat := 4

  type TileDirection = d: int | 0 <= d < DirectionCount

  const TOP: TileDirection := 0
  const RIGHT: TileDirection := 1
  const BOTTOM: TileDirection := 2
  const LEFT: TileDirection := 3

  /** The direction two places further round the enum, wrapping at its end. */
  function GetOpposite(direction: TileDirection): (r: TileDirection)
    ensures r != direction
    ensures (r + 2) % DirectionCount == direction
    ensures direction == LEFT <==> r == RIGHT
    ensures direction == TOP <==> r == BOTTOM
  {
    (direction + 2) % DirectionCount
  }

  /** Taking the opposite twice gives back the direction. */
  lemma OppositeInvolution(direction: TileDirection)
    ensures GetOpposite(GetOpposite(direction)) == direction
  {
  }
}
