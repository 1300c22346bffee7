# Battlesnake move logic in Dafny

This project models the per-turn decision of a Battlesnake agent (`src/logic.rs`).
Each turn, `get_move` receives the board: its width and height, the food and every
snake, the agent's own included. It returns one of `up`, `down`, `left`, `right`.
The decision has two parts:

- **Safety filter** (`Safety`, file `safety.dfy`). Four flags start true. The checks
  clear them in this order: backward move (head against neck), board edges,
  self-collision, then a pass over every snake on the board. The directions still
  flagged form the safe set. `Safety.SafeMoves` is imperative, like the source. It
  keeps four local flags and loops over `board.snakes`. It is proved against the
  closed-form predicate `Safety.Allowed`.
- **Food seeker** (`FoodSeeker`, file `seeker.dfy`). `get_closest_food` is the
  recursive function `FoodSeeker.ClosestFood`. It threads the `visited` list.
  At each probe cell it runs the four guarded food tests in the order right, left,
  up, down. If none matches, it appends the cell to `visited` and moves the probe.
  The step depends on `last_direction`, which turns Up -> Right -> Down -> Left -> Up.
  The probe therefore traces a unit square. Termination is proved with this measure:
  the number of cells of that square still unvisited before the first visited one.
- **`get_move`** (`Logic.GetMove`, file `logic.dfy`). It runs the filter, then the
  seeker from the head with `Up` and an empty `visited`. The seeker's answer is the
  move whatever the safe set holds.

The game types of the crate root (`Coord`, `Battlesnake`, `Board`) and the
`Direction` enum are in `Types` (file `types.dfy`). Coordinates are integers.

The code has these quirks, and the model keeps them:

- The edge checks are `if / else if` per axis: the far edge is tested first, the
  zero edge only when the head is not on the far edge. On a board one cell wide,
  only `right` is cleared.
- In the snake loop, only the `right` test reads the snake in hand. The `left`, `up`
  and `down` tests re-scan the agent's own body.
- The safe set is not used to choose the move.
- The code indexes `body[1]`, so a body shorter than two segments panics. This is
  a precondition here.
- From `Up`, the seeker probes at most four cells and makes at most five calls.
- The `left` guard tests `x - 1 > 0` on the probe. The `down` guard tests `y - 1 > 0`
  on the food. So food in column 0 never yields `left`, and food in rows 0 and 1
  never yields `down`.
- After `last_direction` `Right`, the probe moves to `y + 1` and the new direction
  is `Down`. After `Left`, it moves to `y - 1` and the new direction is `Up`. The
  vertical names are opposite to the safety filter's meaning of `up` and `down`.
  `FoodSeeker.NextProbe` states this step by step.

## Model

| member | source | states |
|---|---|---|
| Types.Step | src/logic.rs:97-125 | the neighbour cell in each direction: same column, one row up for `up` and down for `down`; same row, one column right for `right` and left for `left` |
| Types.Name | src/logic.rs:211-229 | each move's wire name is one of "up", "down", "left", "right" |
| Types.NameInjective | src/logic.rs:51-56 | the four move names are distinct, so the name identifies the move |
| Safety.Backward | src/logic.rs:61-72 | the head/neck chain clears no flag exactly when neck equals head; otherwise it clears one flag, a step in that direction brings the head closer to the neck, and a neck one step away in direction d clears exactly d |
| Safety.EdgeBlocked | src/logic.rs:79-92 | a cleared direction has the head on an edge of its own axis; `left` and `down` are cleared only when the head is not on the far edge of that axis |
| Safety.Allowed | src/logic.rs:60-159 | an allowed direction does not step onto the agent's own body or neck; `left` at x = 0 survives only on a board one cell wide (the snakes' effect on `right` is `SnakeOnRightExcludesRight`) |
| Safety.SafeSet | src/logic.rs:162-168 | the safe set holds exactly the directions whose flag is still true |
| Safety.SafeMoves | src/logic.rs:51-168 | the returned set holds exactly the directions that survive the backward, edge, self-collision and opponent checks (`Allowed`); the loop keeps the flags narrowing, and its `left`, `up` and `down` re-scans of the own body change nothing |
| Safety.EdgeExact | src/logic.rs:75-92 | on a board at least 2x2 with the head on it, the edge checks clear a direction exactly when its step leaves the board |
| Safety.NarrowBoardKeepsLeft | src/logic.rs:79-85 | on a board one cell wide, `right` is cleared and `left` is not, although `left` leaves the board |
| Safety.CornerClearsTwo | src/logic.rs:79-92 | in a corner of a board at least 2x2, the edge checks clear exactly one of left/right and exactly one of up/down |
| Safety.SnakeOnRightExcludesRight | src/logic.rs:129-137 | a snake on the board, own or opponent, with a segment right of the head rules `right` out |
| Safety.OpponentsOnlyAffectRight | src/logic.rs:138-158 | the `left`, `up` and `down` flags are the same with or without any snakes on the board |
| Safety.OpponentOnLeftNotExcluded | src/logic.rs:138-144 | an opponent directly left of the head leaves `left` in the safe set |
| Safety.MoreSnakesNarrow | src/logic.rs:129-159 | adding snakes to the board can only clear flags, never set one |
| Safety.AllowedMeansOnBoardAndFree | src/logic.rs:60-125 | on a board at least 2x2 with the head on it, a safe move stays on the board, does not step onto the neck and does not enter the agent's own body |
| FoodSeeker.FoodCheckExact | src/logic.rs:206-228 | a food test matches exactly when food lies on the neighbouring cell and its guard holds: right x+1 < width, left x >= 2, up y+1 < height, down y >= 3 |
| FoodSeeker.FoodCheck | src/logic.rs:206-228 | a food test that matches has food on the neighbouring cell in its direction |
| FoodSeeker.FirstAdjacent | src/logic.rs:206-230 | the answer at a probe cell is a test that matches, and no test earlier in the order right > left > up > down matches; no answer means no test matches |
| FoodSeeker.Turn | src/logic.rs:232-285 | each call turns `last_direction` a quarter: a horizontal direction becomes a vertical one and the reverse |
| FoodSeeker.NextProbe | src/logic.rs:232-285 | after `Up` the probe moves right and after `Down` left, but after `Right` it moves up and after `Left` down |
| FoodSeeker.Square | src/logic.rs:232-285 | the walk's square has four distinct cells and starts at the probe cell |
| FoodSeeker.SquareRotates | src/logic.rs:232-285 | the next probe is the square's second cell; after one step the walk traces the same square, starting one cell on and ending at the cell it left; four turns bring `last_direction` back |
| FoodSeeker.UnvisitedPrefix | src/logic.rs:204 | the longest prefix of a cell list with no visited cell: every cell in it is unvisited, and the cell after it is visited |
| FoodSeeker.PrefixAfterVisit | src/logic.rs:231 | appending the cell just left to `visited` and to the end of the walk leaves the unvisited prefix unchanged |
| FoodSeeker.WalkStep | src/logic.rs:231-285 | each recursive call drops exactly the cell it leaves from the unvisited prefix of the square, so the recursion ends |
| FoodSeeker.ClosestFood | src/logic.rs:196-286 | a visited probe cell gives `Err`; an `Ok(d)` answer comes from an unvisited cell of the walk's square whose food tests answer d |
| FoodSeeker.FirstFound | src/logic.rs:206-230 | searching a list of probe cells fails exactly when no cell has a matching test; otherwise it answers with the first such cell's answer |
| FoodSeeker.ClosestFoodWalk | src/logic.rs:196-286 | for every input, the seeker answers as a search over the unvisited cells of its square, in walk order, up to the first visited one |
| FoodSeeker.SeekFromHead | src/logic.rs:175-182 | the call from the head with `Up` and no visited cells probes (x,y), (x+1,y), (x+1,y+1), (x,y+1) in that order and fails if none of them has food next to it |
| FoodSeeker.Calls | src/logic.rs:196-286 | a search makes at most one call more than the unvisited cells of its square, and exactly that many when it fails |
| FoodSeeker.SeekCallsBound | src/logic.rs:204 | a search from the head makes at most five calls, and exactly five when it returns `Err` |
| FoodSeeker.SeekNeedsNearbyFood | src/logic.rs:206-285 | a search from the head succeeds only if some food lies in the 4x4 block from (x-1,y-1) to (x+2,y+2) |
| FoodSeeker.SeekFirstProbe | src/logic.rs:206-230 | food next to the head decides the move before any step, with the priority order between sides |
| Logic.GetMove | src/logic.rs:50-187 | the safe set is exactly the filter's; the move is the first guarded food find among the head, its right, up-right and up cells, independent of the safe set |
| Logic.MoveMayBeUnsafe | src/logic.rs:164-186 | a concrete board where the move is `right` while an opponent makes `right` unsafe |
| Logic.FoodRightOfHead | src/logic.rs:206-211 | on an 11x11 board, food right of the head at (5,5) gives `right` |
| Logic.RightEdgeNeverSafe | src/logic.rs:79-81 | a head at x = 10 on an 11-wide board never has `right` in the safe set |

## Left out

- `info`, `start` and `end` (src/logic.rs:25-45) are left out. They return fixed configuration or only log.
- The `info!` logging calls and the `json!` construction of the response are left out. The move is a `Direction`; `Types.Name` gives its wire name.
- The `.unwrap()` of the seeker's answer (src/logic.rs:185-186) panics on `Err`. The model returns the `Outcome` instead, with `Err` for that case.
- The order of `safe_moves` is left out. It follows `HashMap` iteration order, which is unspecified, so the safe set is a `set`.
- The commented-out random choice and the unused `aarch64` import are left out. Neither has behaviour.
- `u32` arithmetic is modelled as integer arithmetic. The code has these `u32` panics (debug builds) or wrap-arounds (release builds), none of which the model has:
  - `board_width - 1` or `board_height - 1` when a dimension is 0;
  - `my_body[0].x - 1` in the `left` tests when the `left` flag is still true at x = 0, which happens on a board one cell wide;
  - `my_body[0].y - 1` in the same way for `down` on a board one cell high;
  - `current_coord.x - 1` at x = 0 and `current_coord.y - 1` at y = 0 in the seeker's food tests, when there is food;
  - the probe step `current_coord.x - 1` after `Down` at x = 0 (src/logic.rs:249), and the probe step `current_coord.y - 1` after `Left` at y = 0 (src/logic.rs:263). `FoodSeeker.ClosestFood` accepts any `last`, so it reaches these steps, for example `NextProbe(Coord(0, 0), Down) == Coord(-1, 0)`. The call from `get_move` never reaches them: from `Up`, the walk subtracts only from x + 1 and y + 1;
  - `food_coord.y - 1` for food in row 0 below a probe in row 1. With wrap-around that test would answer `down`.
- Overflow of `x + 1` or `y + 1` at the top of `u32` is left out.
- Safety.SafeMoves: requires a body of at least two segments. The code indexes `body[1]` and panics on a shorter body.
