/** The game state a turn request carries (the crate root's `Coord`,
    `Battlesnake` and `Board`) and the four moves of `logic.rs`.
    Coordinates are the source's `u32` values, read as mathematical integers. */
module Types {

  /** An optional value: the backward-move step clears one flag or none. */
  datatype Option<T> = None | Some(value: T)

  /** A grid cell; `x` grows to the right, `y` grows upwards. */
  datatype Coord = Coord(x: int, y: int)

  /** A snake: its body, head first (`body[0]` is the head, `body[1]` the neck). */
  datatype Battlesnake = Battlesnake(body: seq<Coord>)

  /** The board of one turn: its size, the food items and every snake on it,
      the agent's own snake included. */
  datatype Board = Board(width: int, height: int, food: seq<Coord>, snakes: seq<Battlesnake>)

  /** The four moves, `enum Direction` of `logic.rs`; the safety filter's
      string keys "up", "down", "left" and "right" name the same four. */
  datatype Direction = Up | Down | Left | Right

  /** The cell one step from `c` in direction `d`, as the safety filter's
      neighbour tests and the food seeker's adjacency tests write it. */
  function Step(c: Coord, d: Direction): (n: Coord)
    ensures d == Up || d == Down ==> n.x == c.x && (n.y - c.y) * (n.y - c.y) == 1
    ensures d == Left || d == Right ==> n.y == c.y && (n.x - c.x) * (n.x - c.x) == 1
    ensures (d == Up ==> n.y > c.y) && (d == Down ==> n.y < c.y)
    ensures (d == Right ==> n.x > c.x) && (d == Left ==> n.x < c.x)
  {
    match d
    case Up => Coord(c.x, c.y + 1)
    case Down => Coord(c.x, c.y - 1)
    case Left => Coord(c.x - 1, c.y)
    case Right => Coord(c.x + 1, c.y)
  }

  /** The wire name of a move, as the response `{ "move": ... }` carries it. */
  function Name(d: Direction): (s: string)
    ensures s in {"up", "down", "left", "right"}
  {
    match d
    case Up => "up"
    case Down => "down"
    case Left => "left"
    case Right => "right"
  }

  /** Distinct moves have distinct wire names, so the name identifies the move. */
  lemma NameInjective(d: Direction, e: Direction)
    ensures Name(d) == Name(e) <==> d == e
  {
  }
}
