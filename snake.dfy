/** The game engine of a snake game on an n-by-n toroidal board.

    A cell is an (x, y) pair; the snake is a head-first sequence of cells;
    the game object keeps the snake, the apple, the current direction, the
    score, the best score and whether the game has stopped.
 */
module Snake {

  datatype Direction = Up | Down | Left | Right

  datatype Cell = Cell(x: int, y: int)

  /** The direction that would send the snake straight back. */
  function Opposite(d: Direction): (r: Direction)
    ensures r != d
    ensures DeltaX(r) == -DeltaX(d) && DeltaY(r) == -DeltaY(d)
  {
    match d
    case Up => Down
    case Down => Up
    case Left => Right
    case Right => Left
  }

  /** Reversing twice gives back the original direction. */
  lemma OppositeInvolutive(d: Direction)
    ensures Opposite(Opposite(d)) == d
  {
  }

  /** Horizontal and vertical displacement of one step ("up" lowers y). */
  function DeltaX(d: Direction): int
  {
    match d
    case Left => -1
    case Right => 1
    case _ => 0
  }

  function DeltaY(d: Direction): int
  {
    match d
    case Up => -1
    case Down => 1
    case _ => 0
  }

  predicate InBounds(c: Cell, n: int)
  {
    0 <= c.x < n && 0 <= c.y < n
  }

  predicate AllInBounds(s: seq<Cell>, n: int)
  {
    forall i :: 0 <= i < |s| ==> InBounds(s[i], n)
  }

  /** No two segments of the snake share a cell. */
  predicate Distinct(s: seq<Cell>)
  {
    forall i, j :: 0 <= i < j < |s| ==> s[i] != s[j]
  }

  lemma ModSmall(v: int, n: int)
    requires 0 <= v < n
    ensures v % n == v
  {
  }

  /** Moving one cell towards 0 on an axis of length n, with wraparound. */
  function WrapDown(v: int, n: int): (r: int)
    requires n >= 2 && 0 <= v < n
    ensures r == (v - 1) % n && r != v
  {
    var w := v - 1;
    if w < 0 then
      assert (n - 1) % n == n - 1 && (-1) % n == n - 1;
      n - 1
    else
      assert w % n == w;
      w
  }

  /** Moving one cell away from 0 on an axis of length n, with wraparound. */
  function WrapUp(v: int, n: int): (r: int)
    requires n >= 2 && 0 <= v < n
    ensures r == (v + 1) % n && r != v
  {
    var w := v + 1;
    if w >= n then
      assert n % n == 0;
      0
    else
      assert w % n == w;
      w
  }

  /** One step from c in direction d: move one axis by one and, when that
      leaves the board, re-enter at the opposite edge. The result is the
      step taken modulo n on each axis, which changes exactly one coordinate. */
  function Advance(c: Cell, d: Direction, n: int): (r: Cell)
    requires n >= 2 && InBounds(c, n)
    ensures InBounds(r, n)
    ensures r.x == (c.x + DeltaX(d)) % n && r.y == (c.y + DeltaY(d)) % n
    ensures d == Left || d == Right ==> r.y == c.y && r.x != c.x
    ensures d == Up || d == Down ==> r.x == c.x && r.y != c.y
  {
    match d
    case Up => ModSmall(c.x, n); Cell(c.x, WrapDown(c.y, n))
    case Down => ModSmall(c.x, n); Cell(c.x, WrapUp(c.y, n))
    case Left => ModSmall(c.y, n); Cell(WrapDown(c.x, n), c.y)
    case Right => ModSmall(c.y, n); Cell(WrapUp(c.x, n), c.y)
  }

  /** Leaving an edge re-enters at the opposite edge, for all four edges. */
  lemma EdgesWrap(n: int, k: int)
    requires n >= 2 && 0 <= k < n
    ensures Advance(Cell(n - 1, k), Right, n) == Cell(0, k)
    ensures Advance(Cell(0, k), Left, n) == Cell(n - 1, k)
    ensures Advance(Cell(k, 0), Up, n) == Cell(k, n - 1)
    ensures Advance(Cell(k, n - 1), Down, n) == Cell(k, 0)
  {
  }

  /** A step followed by a step in the opposite direction returns to the
      start cell: reversing would drive the head onto the segment behind it. */
  lemma AdvanceThenBack(c: Cell, d: Direction, n: int)
    requires n >= 2 && InBounds(c, n)
    ensures Advance(Advance(c, d, n), Opposite(d), n) == c
  {
  }

  /** The direction after a request for d while moving in cur: the request
      is taken unless it is the exact reverse of cur. */
  function Turned(cur: Direction, d: Direction): (r: Direction)
    ensures r == if d == Opposite(cur) then cur else d
    ensures r != Opposite(cur)
  {
    if (d == Up && cur != Down) ||
       (d == Down && cur != Up) ||
       (d == Left && cur != Right) ||
       (d == Right && cur != Left)
    then d
    else cur
  }

  /** Repeating a request changes nothing more (each registered key
      listener forwards the same request). */
  lemma TurnedIdempotent(cur: Direction, d: Direction)
    ensures Turned(Turned(cur, d), d) == Turned(cur, d)
  {
  }

  /** Whether some segment of the snake is at c, scanning from the head. */
  predicate IsSnakeCell(s: seq<Cell>, c: Cell)
    ensures IsSnakeCell(s, c) <==> c in s
  {
    |s| > 0 && (s[0] == c || IsSnakeCell(s[1..], c))
  }

  /** Best score after a game that ended with the given score. */
  function Best(best: nat, score: nat): (r: nat)
    ensures r >= best && r >= score
    ensures r == best || r == score
  {
    if score > best then score else best
  }

  /** Best score after a session of games ending with the given scores. */
  function BestOfSession(best: nat, scores: seq<nat>): nat
    decreases |scores|
  {
    if scores == [] then best else BestOfSession(Best(best, scores[0]), scores[1..])
  }

  /** Over a whole session the best score never drops and is at least
      every score reached. */
  lemma {:induction false} BestOfSessionBounds(best: nat, scores: seq<nat>)
    ensures BestOfSession(best, scores) >= best
    ensures forall i :: 0 <= i < |scores| ==> BestOfSession(best, scores) >= scores[i]
    ensures BestOfSession(best, scores) == best || BestOfSession(best, scores) in scores
    decreases |scores|
  {
    if scores != [] {
      var rest := scores[1..];
      BestOfSessionBounds(Best(best, scores[0]), rest);
      forall i | 0 <= i < |scores|
        ensures BestOfSession(best, scores) >= scores[i]
      {
        if i > 0 { assert scores[i] == rest[i - 1]; }
      }
      if BestOfSession(best, scores) in rest {
        assert BestOfSession(best, scores) in scores;
      }
    }
  }

  /** One more game in the session is one more best-score update, the one
      each end of a game applies. */
  lemma {:induction false} BestOfSessionStep(best: nat, scores: seq<nat>, s: nat)
    ensures BestOfSession(best, scores + [s]) == Best(BestOfSession(best, scores), s)
    decreases |scores|
  {
    if scores != [] {
      assert (scores + [s])[1..] == scores[1..] + [s];
      BestOfSessionStep(Best(best, scores[0]), scores[1..], s);
    }
  }

  /** The two starting segments: the board centre and the cell to its left. */
  function InitialSnake(n: int): seq<Cell>
  {
    [Cell(n / 2, n / 2), Cell(n / 2 - 1, n / 2)]
  }

  lemma InitialSnakeWellFormed(n: int)
    requires n >= 2
    ensures |InitialSnake(n)| == 2 < n * n
    ensures AllInBounds(InitialSnake(n), n) && Distinct(InitialSnake(n))
  {
  }

  // ----- Counting the cells of the board -----

  /** The cells (0, y) .. (w - 1, y). */
  ghost function RowCells(y: int, w: nat): (r: set<Cell>)
    ensures |r| == w
    ensures forall c :: c in r <==> 0 <= c.x < w && c.y == y
  {
    if w == 0 then {} else
      var prev := RowCells(y, w - 1);
      assert Cell(w - 1, y) !in prev;
      prev + {Cell(w - 1, y)}
  }

  /** The cells with 0 <= x < w and 0 <= y < h. */
  ghost function BoardCells(h: nat, w: nat): (r: set<Cell>)
    ensures |r| == h * w
    ensures forall c :: c in r <==> 0 <= c.x < w && 0 <= c.y < h
  {
    if h == 0 then {} else
      var prev := BoardCells(h - 1, w);
      var row := RowCells(h - 1, w);
      assert prev * row == {} by {
        forall c | c in prev ensures c !in row { }
      }
      assert |prev + row| == (h - 1) * w + w;
      prev + row
  }

  /** A snake of length k occupies at most k cells. */
  lemma {:induction false} OccupiedAtMostLength(s: seq<Cell>)
    ensures |set c | c in s| <= |s|
  {
    if s != [] {
      OccupiedAtMostLength(s[1..]);
      assert (set c | c in s) == {s[0]} + (set c | c in s[1..]);
    }
  }

  /** While the snake is shorter than the board is large, some cell of the
      board is free, so the apple sampling loop can finish. */
  lemma FreeCellExists(s: seq<Cell>, n: nat) returns (x: int, y: int)
    requires AllInBounds(s, n) && |s| < n * n
    ensures 0 <= x < n && 0 <= y < n && Cell(x, y) !in s
  {
    var board := BoardCells(n, n);
    var occupied := set c | c in s;
    OccupiedAtMostLength(s);
    assert |board * occupied| <= |occupied| by {
      assert |occupied| == |occupied - board| + |occupied * board|;
    }
    assert |board - occupied| > 0;
    var c :| c in board - occupied;
    x, y := c.x, c.y;
  }

  /** A snake without repeated segments occupies as many cells as it is long. */
  lemma {:induction false} DistinctOccupiesLength(s: seq<Cell>)
    requires Distinct(s)
    ensures |set c | c in s| == |s|
  {
    if s != [] {
      assert Distinct(s[1..]);
      DistinctOccupiesLength(s[1..]);
      assert (set c | c in s) == {s[0]} + (set c | c in s[1..]);
      assert s[0] !in s[1..];
    }
  }

  /** A snake that covers the whole board leaves no cell free, so the
      apple sampling loop would never stop. */
  lemma FullBoardHasNoFreeCell(s: seq<Cell>, n: nat, x: int, y: int)
    requires AllInBounds(s, n) && Distinct(s) && |s| == n * n
    requires 0 <= x < n && 0 <= y < n
    ensures IsSnakeCell(s, Cell(x, y))
  {
    var board := BoardCells(n, n);
    var occupied := set c | c in s;
    DistinctOccupiesLength(s);
    assert occupied <= board;
    assert board * occupied == occupied;
    assert |board - occupied| == 0;
    assert Cell(x, y) in board;
  }

  // ----- The game object -----

  class SnakeGame {
    /** Side length of the board. */
    const n: nat
    /** Segments, head first. */
    var snake: seq<Cell>
    var apple: Cell
    var direction: Direction
    var score: nat
    var bestScore: nat
    /** Set when the game has ended and no more ticks are scheduled. */
    var over: bool

    /** The invariant every tick keeps: the snake has at least two segments,
        all on the board and pairwise distinct; the apple is on the board and
        off the snake. */
    ghost predicate Valid()
      reads this
    {
      n >= 2 && |snake| >= 2 &&
      AllInBounds(snake, n) && Distinct(snake) &&
      InBounds(apple, n) && apple !in snake
    }

    /** A new game on a boardSize-by-boardSize board, with the best score
        loaded from storage. */
    constructor (boardSize: nat, storedBest: nat)
      requires boardSize >= 2
      ensures Valid()
      ensures n == boardSize && snake == InitialSnake(boardSize)
      ensures direction == Right && score == 0 && bestScore == storedBest && !over
    {
      n := boardSize;
      snake := [];
      apple := Cell(0, 0);
      direction := Right;
      score := 0;
      bestScore := storedBest;
      over := false;
      new;
      CreateSnake();
      InitialSnakeWellFormed(n);
      GenerateApple();
    }

    /** Appends the two starting segments to the snake. */
    method CreateSnake()
      modifies this`snake
      ensures snake == old(snake) + InitialSnake(n)
    {
      var startX := n / 2;
      var startY := startX;
      for i := 0 to 2
        invariant snake == old(snake) + InitialSnake(n)[..i]
      {
        var x := startX - i;
        var y := startY;
        snake := snake + [Cell(x, y)];
      }
    }

    /** Places the apple on a board cell that no segment occupies. */
    method GenerateApple()
      requires AllInBounds(snake, n) && |snake| < n * n
      modifies this`apple
      ensures InBounds(apple, n) && apple !in snake
    {
      var fx, fy := FreeCellExists(snake, n);
      assert !IsSnakeCell(snake, Cell(fx, fy));
      var x: int, y: int :| 0 <= x < n && 0 <= y < n && !IsSnakeCell(snake, Cell(x, y));
      assert !IsSnakeCell(snake, Cell(x, y));
      apple := Cell(x, y);
    }

    /** What one move does, from a state with snake s0, apple a0, score
        sc0, best score b0 and flag o0, in the current direction: on collision
        with any segment the game ends and nothing else but the best score
        changes; on the apple the snake grows by the new head and the score
        rises by one; otherwise the head is prepended and the tail dropped,
        apple and score unchanged. The length changes by 0 or 1. */
    ghost predicate Moved(s0: seq<Cell>, a0: Cell, sc0: nat, b0: nat, o0: bool)
      reads this
    {
      n >= 2 && |s0| >= 1 && InBounds(s0[0], n) &&
      (|snake| == |s0| || |snake| == |s0| + 1) &&
      var head := Advance(s0[0], direction, n);
      if head in s0 then
        snake == s0 && apple == a0 && score == sc0 &&
        over && bestScore == Best(b0, score)
      else if head == a0 then
        snake == [head] + s0 && score == sc0 + 1 &&
        bestScore == b0 && over == o0
      else
        snake == [head] + s0[..|s0| - 1] &&
        apple == a0 && score == sc0 &&
        bestScore == b0 && over == o0
    }

    /** One tick. The new head is one step ahead, wrapping at the edges.
        Running into any current segment, the tail included, ends the game
        and leaves snake, apple and score as they were. Otherwise the head is
        prepended; on the apple the snake grows, the score goes up by one
        and a new apple is placed off the grown snake; elsewhere the tail
        is dropped. The requirement on the apple case excludes the one
        situation in which placing the new apple never finishes: the grown
        snake would cover the whole board. */
    method MoveSnake()
      requires Valid()
      requires Advance(snake[0], direction, n) == apple ==> |snake| + 1 < n * n
      modifies this`snake, this`apple, this`score, this`bestScore, this`over
      ensures Valid()
      ensures Moved(old(snake), old(apple), old(score), old(bestScore), old(over))
      ensures bestScore >= old(bestScore)
    {
      var newHead := Advance(snake[0], direction, n);
      if IsSnakeCell(snake, newHead) {
        EndGame();
        return;
      }
      snake := [newHead] + snake;
      if newHead == apple {
        score := score + 1;
        GenerateApple();
      } else {
        snake := snake[..|snake| - 1];
      }
    }

    /** A direction request: ignored when it is the exact reverse of the
        current direction, taken otherwise (whether or not the game is over). */
    method ChangeDirection(d: Direction)
      modifies this`direction
      ensures direction == Turned(old(direction), d)
    {
      direction := Turned(direction, d);
    }

    /** Stops the game and raises the best score to this game's score
        when it is higher. */
    method EndGame()
      modifies this`bestScore, this`over
      ensures over
      ensures bestScore == Best(old(bestScore), score)
    {
      over := true;
      if score > bestScore {
        bestScore := score;
      }
    }

    /** Starts a fresh game: the starting snake, direction right, score
        zero, a new apple; the best score is kept. */
    method Restart()
      requires n >= 2
      modifies this`snake, this`direction, this`score, this`apple, this`over
      ensures Valid()
      ensures snake == InitialSnake(n) && direction == Right && score == 0 && !over
      ensures bestScore == old(bestScore)
    {
      snake := [];
      direction := Right;
      score := 0;
      CreateSnake();
      InitialSnakeWellFormed(n);
      GenerateApple();
      over := false;
    }

    /** The scheduled timer callback: a tick while the game runs; once the
        game is over the timer has been cleared and nothing moves. */
    method Tick()
      requires Valid()
      requires !over && Advance(snake[0], direction, n) == apple ==> |snake| + 1 < n * n
      modifies this`snake, this`apple, this`score, this`bestScore, this`over
      ensures Valid()
      ensures old(over) ==>
        snake == old(snake) && apple == old(apple) &&
        score == old(score) && bestScore == old(bestScore) && over
      ensures !old(over) ==> Moved(old(snake), old(apple), old(score), old(bestScore), old(over))
      ensures bestScore >= old(bestScore)
    {
      if !over {
        MoveSnake();
      }
    }
  }

  /** A client: the first tick of a new game on the 10-by-10 board moves the
      head from the centre (5, 5) one cell right, whether or not it eats. */
  method FirstTickOnTenBoard()
  {
    var g := new SnakeGame(10, 0);
    assert g.snake == [Cell(5, 5), Cell(4, 5)];
    g.Tick();
    assert g.snake[0] == Cell(6, 5) && g.snake[1] == Cell(5, 5);
    assert !g.over && (g.score == 0 || g.score == 1);
  }
}
