/** `get_move`: runs the safety filter, then lets the food seeker choose the
    move from the head, without looking at the safe set. */
module Logic {
  import opened Types
  import opened Safety
  import opened FoodSeeker

  /** One turn. `safe` is the set the filter builds and the source then
      drops; `chosen` is the seeker's answer, whose `Err` the source unwraps
      (a panic). The move is the first guarded food find among the head, the
      cell to its right, the cell up-right and the cell above. */
  method GetMove(board: Board, you: Battlesnake) returns (safe: set<Direction>, chosen: Outcome)
    requires |you.body| >= 2
    ensures forall d :: d in safe <==> Allowed(board, you, d)
    ensures var h := you.body[0];
            chosen == FirstFound([h, Coord(h.x + 1, h.y), Coord(h.x + 1, h.y + 1), Coord(h.x, h.y + 1)],
                                 board.food, board.width, board.height)
  {
    safe := SafeMoves(board, you);
    var myHead := you.body[0];
    chosen := ClosestFood(myHead, board.food, Up, [], board.width, board.height);
    SeekFromHead(myHead, board.food, board.width, board.height);
  }

  /** The move ignores the safe set: here the seeker finds food one probe
      to the right and answers `right` although an opponent sits on that
      cell. */
  lemma MoveMayBeUnsafe()
    ensures var board := Board(11, 11, [Coord(7, 5)], [Battlesnake([Coord(6, 5), Coord(6, 6)])]);
            var you := Battlesnake([Coord(5, 5), Coord(5, 4)]);
            && ClosestFood(you.body[0], board.food, Up, [], board.width, board.height) == Ok(Right)
            && !Allowed(board, you, Right)
  {
    var board := Board(11, 11, [Coord(7, 5)], [Battlesnake([Coord(6, 5), Coord(6, 6)])]);
    var you := Battlesnake([Coord(5, 5), Coord(5, 4)]);
    var h := Coord(5, 5);
    SeekFromHead(h, board.food, 11, 11);
    FoodCheckExact(h, board.food, Right, 11, 11);
    FoodCheckExact(h, board.food, Left, 11, 11);
    FoodCheckExact(h, board.food, Up, 11, 11);
    FoodCheckExact(h, board.food, Down, 11, 11);
    assert FirstAdjacent(h, board.food, 11, 11) == None;
    FoodCheckExact(Coord(6, 5), board.food, Right, 11, 11);
    assert FirstAdjacent(Coord(6, 5), board.food, 11, 11) == Some(Right);
    SnakeOnRightExcludesRight(board, you, 0);
  }

  /** An 11x11 board, head at (5,5) facing up, food at (6,5): the first food
      test already answers `right`. */
  lemma FoodRightOfHead()
    ensures ClosestFood(Coord(5, 5), [Coord(6, 5)], Up, [], 11, 11) == Ok(Right)
  {
    FoodCheckExact(Coord(5, 5), [Coord(6, 5)], Right, 11, 11);
  }

  /** A head on the right edge of an 11-wide board never has `right` in the
      safe set, whatever the seeker answers. */
  lemma RightEdgeNeverSafe(board: Board, you: Battlesnake)
    requires |you.body| >= 2 && board.width == 11 && you.body[0].x == 10
    ensures !Allowed(board, you, Right)
  {
  }
}
