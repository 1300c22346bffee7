/** The safety filter at the top of `get_move`: four flags, all true at
    first, that the backward-move, edge, self-collision and opponent checks
    clear one by one; the directions still flagged form the safe set. */
module Safety {
  import opened Types

  /** Manhattan distance between two cells. */
  function Distance(a: Coord, b: Coord): nat
  {
    (if a.x < b.x then b.x - a.x else a.x - b.x) + (if a.y < b.y then b.y - a.y else a.y - b.y)
  }

  /** The flag the head/neck `if / else if` chain clears: the x axis is
      compared first, so at most one flag goes, and none when neck and head
      coincide. */
  function Backward(head: Coord, neck: Coord): (r: Option<Direction>)
    ensures r == None <==> neck == head
    ensures r.Some? ==> Distance(Step(head, r.value), neck) < Distance(head, neck)
    ensures forall d :: neck == Step(head, d) ==> r == Some(d)
  {
    if neck.x < head.x then Some(Left)
    else if neck.x > head.x then Some(Right)
    else if neck.y < head.y then Some(Down)
    else if neck.y > head.y then Some(Up)
    else None
  }

  /** Whether the edge checks clear `d` for a head at `head`. Each axis is an
      `if / else if`: the far edge is tested first, the zero edge only when
      the head is not on the far edge. */
  function EdgeBlocked(width: int, height: int, head: Coord, d: Direction): (b: bool)
    ensures b && (d == Left || d == Right) ==> head.x == 0 || head.x == width - 1
    ensures b && (d == Up || d == Down) ==> head.y == 0 || head.y == height - 1
    ensures b && d == Left ==> head.x != width - 1
    ensures b && d == Down ==> head.y != height - 1
  {
    match d
    case Right => head.x == width - 1
    case Left => head.x != width - 1 && head.x == 0
    case Up => head.y == height - 1
    case Down => head.y != height - 1 && head.y == 0
  }

  predicate InBounds(width: int, height: int, c: Coord)
  {
    0 <= c.x < width && 0 <= c.y < height
  }

  /** No snake of `snakes` has a segment on `c`. */
  predicate NoSnakeAt(snakes: seq<Battlesnake>, c: Coord)
  {
    forall j :: 0 <= j < |snakes| ==> c !in snakes[j].body
  }

  /** The flag of `d` after all four checks: not the way back to the neck,
      not over an edge the checks catch, not onto the agent's own body, and,
      for `right` only, not onto any snake on the board. The opponent loop's
      `left`, `up` and `down` tests scan the agent's own body again, so
      opponents never clear those three. */
  function Allowed(board: Board, you: Battlesnake, d: Direction): (b: bool)
    requires |you.body| >= 2
    ensures b ==> Step(you.body[0], d) !in you.body && Step(you.body[0], d) != you.body[1]
    ensures b && d == Left ==> you.body[0].x != 0 || board.width == 1
  {
    var head := you.body[0];
    && Backward(head, you.body[1]) != Some(d)
    && !EdgeBlocked(board.width, board.height, head, d)
    && Step(head, d) !in you.body
    && (d == Right ==> NoSnakeAt(board.snakes, Step(head, Right)))
  }

  /** The directions whose flag is true (the `filter` over the flag map). */
  function SafeSet(up: bool, down: bool, left: bool, right: bool): (s: set<Direction>)
    ensures (Up in s <==> up) && (Down in s <==> down)
    ensures (Left in s <==> left) && (Right in s <==> right)
  {
    (if up then {Up} else {}) + (if down then {Down} else {})
    + (if left then {Left} else {}) + (if right then {Right} else {})
  }

  /** The safety filter: clears flags in the source's order and returns
      the set of directions still flagged. */
  method SafeMoves(board: Board, you: Battlesnake) returns (safe: set<Direction>)
    requires |you.body| >= 2
    ensures forall d :: d in safe <==> Allowed(board, you, d)
  {
    var up, down, left, right := true, true, true, true;

    // backward-move exclusion
    var myHead, myNeck := you.body[0], you.body[1];
    if myNeck.x < myHead.x {
      left := false;
    } else if myNeck.x > myHead.x {
      right := false;
    } else if myNeck.y < myHead.y {
      down := false;
    } else if myNeck.y > myHead.y {
      up := false;
    }

    // board edges
    if myHead.x == board.width - 1 {
      right := false;
    } else if myHead.x == 0 {
      left := false;
    }
    if myHead.y == board.height - 1 {
      up := false;
    } else if myHead.y == 0 {
      down := false;
    }

    // self-collision
    var myBody := you.body;
    if right && Coord(myHead.x + 1, myHead.y) in myBody {
      right := false;
    }
    if left && Coord(myHead.x - 1, myHead.y) in myBody {
      left := false;
    }
    if up && Coord(myHead.x, myHead.y + 1) in myBody {
      up := false;
    }
    if down && Coord(myHead.x, myHead.y - 1) in myBody {
      down := false;
    }

    // the per-snake pass: only `right` looks at the snake in hand
    ghost var rightBefore := right;
    for i := 0 to |board.snakes|
      invariant right ==> rightBefore
      invariant right == (rightBefore && NoSnakeAt(board.snakes[..i], Coord(myHead.x + 1, myHead.y)))
      invariant up == Allowed(board, you, Up) && down == Allowed(board, you, Down)
      invariant left == Allowed(board, you, Left)
    {
      var opponent := board.snakes[i];
      if right && Coord(myHead.x + 1, myHead.y) in opponent.body {
        right := false;
      }
      if left && Coord(myHead.x - 1, myHead.y) in myBody {
        left := false;
      }
      if up && Coord(myHead.x, myHead.y + 1) in myBody {
        up := false;
      }
      if down && Coord(myHead.x, myHead.y - 1) in myBody {
        down := false;
      }
    }
    assert board.snakes[..|board.snakes|] == board.snakes;

    safe := SafeSet(up, down, left, right);
  }

  /** On a board at least two cells wide and high, with the head on it, the
      edge checks clear exactly the moves that leave the board. */
  lemma EdgeExact(width: int, height: int, head: Coord, d: Direction)
    requires width >= 2 && height >= 2 && InBounds(width, height, head)
    ensures EdgeBlocked(width, height, head, d) <==> !InBounds(width, height, Step(head, d))
  {
  }

  /** On a board one cell wide only `right` is cleared on the x axis, so
      `left` stays flagged although it leaves the board. */
  lemma NarrowBoardKeepsLeft(height: int, head: Coord)
    requires InBounds(1, height, head)
    ensures EdgeBlocked(1, height, head, Right)
    ensures !EdgeBlocked(1, height, head, Left) && !InBounds(1, height, Step(head, Left))
  {
  }

  /** In a corner of a board at least two cells wide and high the edge
      checks clear exactly two flags, one per axis. */
  lemma CornerClearsTwo(width: int, height: int, head: Coord)
    requires width >= 2 && height >= 2
    requires (head.x == 0 || head.x == width - 1) && (head.y == 0 || head.y == height - 1)
    ensures EdgeBlocked(width, height, head, Left) != EdgeBlocked(width, height, head, Right)
    ensures EdgeBlocked(width, height, head, Up) != EdgeBlocked(width, height, head, Down)
  {
  }

  /** Any snake on the board, the agent's own included, with a segment on the
      cell right of the head rules `right` out. */
  lemma SnakeOnRightExcludesRight(board: Board, you: Battlesnake, k: nat)
    requires |you.body| >= 2 && k < |board.snakes|
    requires Step(you.body[0], Right) in board.snakes[k].body
    ensures !Allowed(board, you, Right)
  {
  }

  /** Opponents never clear `left`, `up` or `down`: those flags are the same
      with no snakes on the board at all. */
  lemma OpponentsOnlyAffectRight(board: Board, you: Battlesnake, d: Direction)
    requires |you.body| >= 2 && d != Right
    ensures Allowed(board, you, d) == Allowed(board.(snakes := []), you, d)
  {
  }

  /** An opponent directly left of the head does not stop `left`. */
  lemma OpponentOnLeftNotExcluded()
    ensures Allowed(
      Board(11, 11, [], [Battlesnake([Coord(4, 5), Coord(3, 5)])]),
      Battlesnake([Coord(5, 5), Coord(5, 4)]),
      Left)
  {
  }

  /** A further snake can only clear more: the flags narrow as the loop
      goes over the snakes. */
  lemma MoreSnakesNarrow(board: Board, you: Battlesnake, more: seq<Battlesnake>, d: Direction)
    requires |you.body| >= 2
    ensures Allowed(board.(snakes := board.snakes + more), you, d) ==> Allowed(board, you, d)
  {
    var all := board.snakes + more;
    if d == Right && NoSnakeAt(all, Step(you.body[0], Right)) {
      forall j | 0 <= j < |board.snakes|
        ensures Step(you.body[0], Right) !in board.snakes[j].body
      {
        assert all[j] == board.snakes[j];
      }
    }
  }

  /** On a board at least two cells wide and high, a safe move stays on the
      board, does not reverse onto the neck and does not enter the agent's
      own body. */
  lemma AllowedMeansOnBoardAndFree(board: Board, you: Battlesnake, d: Direction)
    requires |you.body| >= 2 && board.width >= 2 && board.height >= 2
    requires InBounds(board.width, board.height, you.body[0])
    requires Allowed(board, you, d)
    ensures InBounds(board.width, board.height, Step(you.body[0], d))
    ensures Step(you.body[0], d) != you.body[1] && Step(you.body[0], d) !in you.body
  {
    EdgeExact(board.width, board.height, you.body[0], d);
  }
}
