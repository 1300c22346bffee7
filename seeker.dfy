/** The food seeker `get_closest_food`: a recursive probe that looks for food
    next to the probe cell, in the fixed order right, left, up, down, and
    otherwise records the cell as visited and moves the probe one step, the
    step chosen by turning `last_direction`. */
module FoodSeeker {
  import opened Types

  /** The seeker's `Result<String, Error>`: a move, or the error returned
      when the probe comes back to a visited cell. */
  datatype Outcome = Ok(dir: Direction) | Err

  /** The food test for direction `d` at probe cell `p`, with the guard the
      source attaches to it. The `down` guard reads the food's own `y`. */
  function FoodCheck(p: Coord, food: seq<Coord>, d: Direction, width: int, height: int): (b: bool)
    ensures b ==> Step(p, d) in food
  {
    match d
    case Right => exists f :: f in food && f.x == p.x + 1 && f.y == p.y && p.x + 1 < width
    case Left => exists f :: f in food && f.x == p.x - 1 && f.y == p.y && p.x - 1 > 0
    case Up => exists f :: f in food && f.y == p.y + 1 && f.x == p.x && p.y + 1 < height
    case Down => exists f :: f in food && f.y == p.y - 1 && f.x == p.x && f.y - 1 > 0
  }

  /** The bound each food test adds on top of "food on the neighbouring cell". */
  predicate Guard(p: Coord, d: Direction, width: int, height: int)
  {
    match d
    case Right => p.x + 1 < width
    case Left => p.x >= 2
    case Up => p.y + 1 < height
    case Down => p.y >= 3
  }

  /** A food test matches exactly when food lies on the neighbouring cell and
      the guard holds. So food in column 0 never yields `left`, food in rows 0
      and 1 never yields `down`, and food beyond the right or top edge never
      yields `right` or `up`. */
  lemma FoodCheckExact(p: Coord, food: seq<Coord>, d: Direction, width: int, height: int)
    ensures FoodCheck(p, food, d, width, height) <==> Step(p, d) in food && Guard(p, d, width, height)
  {
    var n := Step(p, d);
    if n in food && Guard(p, d, width, height) {
      assert n.x == p.x + 1 || n.x == p.x - 1 || n.y == p.y + 1 || n.y == p.y - 1;
    }
  }

  /** Position of a direction in the seeker's priority order. */
  function Rank(d: Direction): nat
  {
    match d
    case Right => 0
    case Left => 1
    case Up => 2
    case Down => 3
  }

  /** The four food tests at one probe cell, in priority order right > left
      > up > down: the answer is the first test that matches. */
  function FirstAdjacent(p: Coord, food: seq<Coord>, width: int, height: int): (r: Option<Direction>)
    ensures r.Some? ==> FoodCheck(p, food, r.value, width, height)
    ensures r.Some? ==> forall e :: Rank(e) < Rank(r.value) ==> !FoodCheck(p, food, e, width, height)
    ensures r.None? ==> forall e :: !FoodCheck(p, food, e, width, height)
  {
    if FoodCheck(p, food, Right, width, height) then Some(Right)
    else if FoodCheck(p, food, Left, width, height) then Some(Left)
    else if FoodCheck(p, food, Up, width, height) then Some(Up)
    else if FoodCheck(p, food, Down, width, height) then Some(Down)
    else None
  }

  /** The turn of `last_direction` at each recursive call. */
  function Turn(last: Direction): (r: Direction)
    ensures (r == Up || r == Down) <==> (last == Left || last == Right)
    ensures r != last
  {
    match last
    case Up => Right
    case Right => Down
    case Down => Left
    case Left => Up
  }

  /** The next probe cell for a given `last_direction`. The horizontal
      names step as the safety filter does, the vertical ones the opposite
      way: after `Right` the probe moves up, after `Left` down. */
  function NextProbe(cur: Coord, last: Direction): (n: Coord)
    ensures last == Up ==> n == Step(cur, Right)
    ensures last == Right ==> n == Step(cur, Up)
    ensures last == Down ==> n == Step(cur, Left)
    ensures last == Left ==> n == Step(cur, Down)
  {
    match last
    case Up => Coord(cur.x + 1, cur.y)
    case Down => Coord(cur.x - 1, cur.y)
    case Left => Coord(cur.x, cur.y - 1)
    case Right => Coord(cur.x, cur.y + 1)
  }

  /** The unit square the walk traces from `cur` with `last`: four distinct
      cells, each the next probe of the one before. */
  function Square(cur: Coord, last: Direction): (s: seq<Coord>)
    ensures |s| == 4 && s[0] == cur
    ensures forall i, j :: 0 <= i < j < 4 ==> s[i] != s[j]
  {
    var x, y := cur.x, cur.y;
    match last
    case Up => [cur, Coord(x + 1, y), Coord(x + 1, y + 1), Coord(x, y + 1)]
    case Right => [cur, Coord(x, y + 1), Coord(x - 1, y + 1), Coord(x - 1, y)]
    case Down => [cur, Coord(x - 1, y), Coord(x - 1, y - 1), Coord(x, y - 1)]
    case Left => [cur, Coord(x, y - 1), Coord(x + 1, y - 1), Coord(x + 1, y)]
  }

  /** After one step the walk traces the same square, starting one cell on
      and ending at the cell it left. */
  lemma SquareRotates(cur: Coord, last: Direction)
    ensures NextProbe(cur, last) == Square(cur, last)[1]
    ensures Turn(Turn(Turn(Turn(last)))) == last
    ensures Square(NextProbe(cur, last), Turn(last)) == Square(cur, last)[1..] + [cur]
  {
  }

  /** The longest prefix of `s` none of whose cells is in `visited`. */
  function UnvisitedPrefix(s: seq<Coord>, visited: seq<Coord>): (p: seq<Coord>)
    ensures |p| <= |s| && p == s[..|p|]
    ensures forall c :: c in p ==> c !in visited
    ensures |p| < |s| ==> s[|p|] in visited
  {
    if s == [] || s[0] in visited then [] else [s[0]] + UnvisitedPrefix(s[1..], visited)
  }

  /** Marking `cur` visited and putting it at the end of the cells still to
      walk leaves the unvisited prefix unchanged, when `cur` is not among
      those cells. */
  lemma {:induction false} PrefixAfterVisit(t: seq<Coord>, cur: Coord, visited: seq<Coord>)
    requires cur !in t
    ensures UnvisitedPrefix(t + [cur], visited + [cur]) == UnvisitedPrefix(t, visited)
  {
    if t == [] {
      assert [] + [cur] == [cur];
    } else {
      assert (t + [cur])[0] == t[0] && (t + [cur])[1..] == t[1..] + [cur];
      PrefixAfterVisit(t[1..], cur, visited);
    }
  }

  /** One step of the walk shortens the unvisited prefix of its square by
      exactly the cell it leaves. */
  lemma WalkStep(cur: Coord, last: Direction, visited: seq<Coord>)
    requires cur !in visited
    ensures UnvisitedPrefix(Square(NextProbe(cur, last), Turn(last)), visited + [cur])
         == UnvisitedPrefix(Square(cur, last), visited)[1..]
  {
    var s := Square(cur, last);
    SquareRotates(cur, last);
    assert cur !in s[1..];
    PrefixAfterVisit(s[1..], cur, visited);
  }

  /** `get_closest_food`: fails on a visited cell, answers with the first food
      test that matches, and otherwise probes the next cell with `cur`
      appended to `visited`. It ends because each call marks one more cell of
      the four-cell square the walk traces. */
  function ClosestFood(cur: Coord, food: seq<Coord>, last: Direction, visited: seq<Coord>,
                       width: int, height: int): (r: Outcome)
    ensures cur in visited ==> r == Err
    ensures r.Ok? ==> exists c :: c in Square(cur, last) && c !in visited
                                  && FirstAdjacent(c, food, width, height) == Some(r.dir)
    decreases |UnvisitedPrefix(Square(cur, last), visited)|
  {
    if cur in visited then Err
    else match FirstAdjacent(cur, food, width, height)
      case Some(d) => Ok(d)
      case None =>
        WalkStep(cur, last, visited);
        SquareRotates(cur, last);
        ClosestFood(NextProbe(cur, last), food, Turn(last), visited + [cur], width, height)
  }

  /** The answer of a search over a fixed list of probe cells: the first cell
      with a matching food test decides, and none fails. */
  function FirstFound(probes: seq<Coord>, food: seq<Coord>, width: int, height: int): (r: Outcome)
    ensures r.Err? <==> forall i :: 0 <= i < |probes| ==> FirstAdjacent(probes[i], food, width, height).None?
    ensures r.Ok? ==> exists i :: (0 <= i < |probes| && FirstAdjacent(probes[i], food, width, height) == Some(r.dir)
                                   && forall j :: 0 <= j < i ==> FirstAdjacent(probes[j], food, width, height).None?)
  {
    if probes == [] then Err
    else match FirstAdjacent(probes[0], food, width, height)
      case Some(d) => Ok(d)
      case None =>
        var r := FirstFound(probes[1..], food, width, height);
        assert forall i :: 0 < i < |probes| ==> probes[i] == probes[1..][i - 1];
        r
  }

  /** For every input, the seeker answers as a search over the cells of its
      square that come before the first visited one. */
  lemma {:induction false} ClosestFoodWalk(cur: Coord, food: seq<Coord>, last: Direction,
                                           visited: seq<Coord>, width: int, height: int)
    ensures ClosestFood(cur, food, last, visited, width, height)
         == FirstFound(UnvisitedPrefix(Square(cur, last), visited), food, width, height)
    decreases |UnvisitedPrefix(Square(cur, last), visited)|
  {
    var p := UnvisitedPrefix(Square(cur, last), visited);
    if cur !in visited && FirstAdjacent(cur, food, width, height).None? {
      WalkStep(cur, last, visited);
      ClosestFoodWalk(NextProbe(cur, last), food, Turn(last), visited + [cur], width, height);
      assert p[0] == cur;
    }
  }

  /** The call `get_move` makes, from the head with `Up` and nothing visited,
      probes the head, then one right, then up-right, then up, and fails on
      the fifth call when none of them has food next to it. */
  lemma SeekFromHead(head: Coord, food: seq<Coord>, width: int, height: int)
    ensures Square(head, Up) == [head, Coord(head.x + 1, head.y), Coord(head.x + 1, head.y + 1), Coord(head.x, head.y + 1)]
    ensures ClosestFood(head, food, Up, [], width, height) == FirstFound(Square(head, Up), food, width, height)
  {
    var s := Square(head, Up);
    var p := UnvisitedPrefix(s, []);
    assert |p| == 4;
    assert p == s;
    ClosestFoodWalk(head, food, Up, [], width, height);
  }

  /** Number of calls of `get_closest_food` one search makes. */
  function Calls(cur: Coord, food: seq<Coord>, last: Direction, visited: seq<Coord>,
                 width: int, height: int): (n: nat)
    ensures 1 <= n <= |UnvisitedPrefix(Square(cur, last), visited)| + 1
    ensures ClosestFood(cur, food, last, visited, width, height).Err?
            ==> n == |UnvisitedPrefix(Square(cur, last), visited)| + 1
    decreases |UnvisitedPrefix(Square(cur, last), visited)|
  {
    if cur in visited || FirstAdjacent(cur, food, width, height).Some? then 1
    else
      WalkStep(cur, last, visited);
      1 + Calls(NextProbe(cur, last), food, Turn(last), visited + [cur], width, height)
  }

  /** A search from the head makes at most five calls, exactly five when it
      fails. */
  lemma SeekCallsBound(head: Coord, food: seq<Coord>, width: int, height: int)
    ensures Calls(head, food, Up, [], width, height) <= 5
    ensures ClosestFood(head, food, Up, [], width, height).Err? ==> Calls(head, food, Up, [], width, height) == 5
  {
    assert UnvisitedPrefix(Square(head, Up), []) == Square(head, Up);
  }

  /** A search from the head can only succeed when some food lies within one
      cell of the 2x2 block the probes cover. */
  lemma SeekNeedsNearbyFood(head: Coord, food: seq<Coord>, width: int, height: int)
    requires ClosestFood(head, food, Up, [], width, height).Ok?
    ensures exists f :: f in food && head.x - 1 <= f.x <= head.x + 2 && head.y - 1 <= f.y <= head.y + 2
  {
    SeekFromHead(head, food, width, height);
    var s := Square(head, Up);
    var r := FirstFound(s, food, width, height);
    var i :| 0 <= i < 4 && FirstAdjacent(s[i], food, width, height) == Some(r.dir);
    FoodCheckExact(s[i], food, r.dir, width, height);
    var f := Step(s[i], r.dir);
    assert f in food;
  }

  /** Food next to the head itself decides the move before any step is
      taken; with food both right of and below the head, `right` wins. */
  lemma SeekFirstProbe(head: Coord, food: seq<Coord>, width: int, height: int)
    requires FirstAdjacent(head, food, width, height).Some?
    ensures ClosestFood(head, food, Up, [], width, height) == Ok(FirstAdjacent(head, food, width, height).value)
  {
  }
}
