/** The brick-and-paddle logic of the C games: the 5 x 10 brick wall laid
    out by the brickPong mode of gameSelector2.cpp and by initialize_bricks of
    zoomedPong.cpp, the clamp that keeps a bar or paddle on the 640-wide
    display, and zoomedPong.cpp's paddle and ball updates. */
module Breakout {
  import opened Blocks

  const WindowWidth: int := 640
  const WindowHeight: int := 480
  const BrickRows: int := 5
  const BrickCols: int := 10
  const BrickWidth: int := WindowWidth / BrickCols
  const BrickHeight: int := 20
  const PaddleWidth: int := 100
  const PaddleHeight: int := 20
  const BallSize: int := 10

  /** A brick: its top-left corner and whether it is still in play.  Width,
      height and colour are the same for every brick. */
  datatype Brick = Brick(x: real, y: real, active: bool)

  /** The brick the layout puts at index k: row k / 10, column k % 10. */
  function GridBrick(k: int): Brick
  {
    Brick((k % BrickCols * BrickWidth) as real, (k / BrickCols * BrickHeight) as real, true)
  }

  /** The brick loops: row by row, column by column, one active brick per
      cell at (column * BRICK_WIDTH, row * BRICK_HEIGHT). */
  method InitializeBricks() returns (bricks: seq<Brick>)
    ensures |bricks| == BrickRows * BrickCols
    ensures forall k | 0 <= k < |bricks| :: bricks[k] == GridBrick(k)
  {
    bricks := [];
    var row := 0;
    while row < BrickRows
      invariant 0 <= row <= BrickRows
      invariant |bricks| == row * BrickCols
      invariant forall k | 0 <= k < |bricks| :: bricks[k] == GridBrick(k)
    {
      var col := 0;
      while col < BrickCols
        invariant 0 <= col <= BrickCols
        invariant |bricks| == row * BrickCols + col
        invariant forall k | 0 <= k < |bricks| :: bricks[k] == GridBrick(k)
      {
        RowMajor(row, col);
        bricks := bricks + [Brick((col * BrickWidth) as real, (row * BrickHeight) as real, true)];
        col := col + 1;
      }
      row := row + 1;
    }
  }

  lemma RowMajor(row: int, col: int)
    requires row >= 0 && 0 <= col < BrickCols
    ensures (row * BrickCols + col) % BrickCols == col && (row * BrickCols + col) / BrickCols == row
  {
  }

  /** Every laid-out brick lies within the top 100 rows of the display. */
  lemma GridBrickInside(i: int)
    requires 0 <= i < BrickRows * BrickCols
    ensures 0.0 <= GridBrick(i).x && GridBrick(i).x + BrickWidth as real <= WindowWidth as real
    ensures 0.0 <= GridBrick(i).y && GridBrick(i).y + BrickHeight as real <= (BrickRows * BrickHeight) as real
  {
    var col, row := i % BrickCols, i / BrickCols;
    assert 0 <= col < BrickCols && 0 <= row < BrickRows;
    assert col * BrickWidth + BrickWidth <= WindowWidth;
    assert row * BrickHeight + BrickHeight <= BrickRows * BrickHeight;
  }

  /** No two laid-out bricks overlap. */
  lemma GridBricksApart(i: int, j: int)
    requires 0 <= i < BrickRows * BrickCols && 0 <= j < BrickRows * BrickCols && i != j
    ensures GridBrick(i).x + BrickWidth as real <= GridBrick(j).x || GridBrick(j).x + BrickWidth as real <= GridBrick(i).x ||
      GridBrick(i).y + BrickHeight as real <= GridBrick(j).y || GridBrick(j).y + BrickHeight as real <= GridBrick(i).y
  {
    if i % BrickCols != j % BrickCols {
      CellsApart(i % BrickCols, j % BrickCols, BrickWidth);
    } else {
      if i / BrickCols == j / BrickCols {
        SameSlot(i, j, BrickCols);
      }
      CellsApart(i / BrickCols, j / BrickCols, BrickHeight);
    }
  }

  /** The two clamps: first at the left edge, then at the right edge.  A
      bar no wider than the display ends inside it, and one already inside
      does not move. */
  function Clamp(x: real, width: int): (r: real)
    ensures 0 <= width <= WindowWidth ==> 0.0 <= r && r + width as real <= WindowWidth as real
    ensures 0.0 <= x && x + width as real <= WindowWidth as real ==> r == x
  {
    var a := if x < 0.0 then 0.0 else x;
    if a + width as real > WindowWidth as real then (WindowWidth - width) as real else a
  }

  /** The bar of gameSelector2.cpp's brickPong mode. */
  class Bar {
    var x: real
    const y: real
    const width: int

    /** Flush left on the bottom rows, 100 wide. */
    constructor ()
      ensures x == 0.0 && y == (WindowHeight - 20) as real && width == 100
    {
      x := 0.0;
      y := (WindowHeight - 20) as real;
      width := 100;
    }

    /** Movement on the right half pushes the bar left and movement on the
        left half pushes it right, each by its pixel count / 500, then the
        bar is clamped to the display. */
    method Update(leftIntensity: int, rightIntensity: int)
      requires 0 <= width <= WindowWidth
      modifies this
      ensures 0.0 <= x && x + width as real <= WindowWidth as real
      ensures x == Clamp(old(x) - (if rightIntensity > 0 then rightIntensity as real / 500.0 else 0.0)
                               + (if leftIntensity > 0 then leftIntensity as real / 500.0 else 0.0), width)
    {
      if rightIntensity > 0 {
        x := x - rightIntensity as real / 500.0;
      }
      if leftIntensity > 0 {
        x := x + leftIntensity as real / 500.0;
      }
      if x < 0.0 {
        x := 0.0;
      }
      if x + width as real > WindowWidth as real {
        x := (WindowWidth - width) as real;
      }
    }
  }

  /** zoomedPong.cpp's paddle. */
  class Paddle {
    var x: real
    var y: real

    /** The paddle main sets up: centred on the bottom edge, on the display. */
    constructor ()
      ensures x == (WindowWidth / 2 - PaddleWidth / 2) as real && y == (WindowHeight - PaddleHeight) as real
      ensures x == 270.0 && y == 460.0
      ensures 0.0 <= x && x + PaddleWidth as real <= WindowWidth as real
    {
      x := (WindowWidth / 2 - PaddleWidth / 2) as real;
      y := (WindowHeight - PaddleHeight) as real;
    }
  }

  /** update_paddle: the paddle is centred under the mirrored hand, then
      clamped; it always ends on the display, and exactly under the hand
      when that fits. */
  method UpdatePaddle(paddle: Paddle, handX: real)
    modifies paddle
    ensures 0.0 <= paddle.x && paddle.x + PaddleWidth as real <= WindowWidth as real
    ensures paddle.x == Clamp(WindowWidth as real - handX - (PaddleWidth / 2) as real, PaddleWidth)
    ensures 50.0 <= WindowWidth as real - handX <= 590.0 ==> paddle.x + 50.0 == WindowWidth as real - handX
    ensures paddle.y == old(paddle.y)
  {
    var invertedHandX := WindowWidth as real - handX;
    paddle.x := invertedHandX - (PaddleWidth / 2) as real;
    if paddle.x < 0.0 {
      paddle.x := 0.0;
    }
    if paddle.x + PaddleWidth as real > WindowWidth as real {
      paddle.x := (WindowWidth - PaddleWidth) as real;
    }
  }

  /** Position and velocity of the ball. */
  datatype Motion = Motion(x: real, y: real, vx: real, vy: real)

  /** Where a ball that fell past the bottom restarts. */
  const Serve: Motion := Motion((WindowWidth / 2) as real, (WindowHeight / 2) as real, 4.0, 4.0)

  /** One step of flight with the bounces off the side walls and the top. */
  function Fly(m: Motion): (r: Motion)
    ensures r.x == m.x + m.vx && r.y == m.y + m.vy
    ensures r.vx == m.vx || r.vx == -m.vx
    ensures r.vx != m.vx ==> r.x < 0.0 || r.x + BallSize as real > WindowWidth as real
    ensures r.vy != m.vy ==> r.y < 0.0
    ensures r.x < 0.0 || r.x + BallSize as real > WindowWidth as real ==> r.vx == -m.vx
    ensures r.y < 0.0 ==> r.vy == -m.vy
  {
    var x, y := m.x + m.vx, m.y + m.vy;
    Motion(x, y, if x < 0.0 || x + BallSize as real > WindowWidth as real then -m.vx else m.vx,
           if y < 0.0 then -m.vy else m.vy)
  }

  /** Is the ball on the paddle? */
  predicate OnPaddle(m: Motion, px: real, py: real)
  {
    m.y + BallSize as real > py && m.x + BallSize as real > px && m.x < px + PaddleWidth as real
  }

  /** A paddle hit turns the ball up and puts it just above the paddle. */
  function OffPaddle(m: Motion, px: real, py: real): Motion
  {
    if OnPaddle(m, px, py) then m.(vy := -m.vy, y := py - BallSize as real) else m
  }

  /** After a paddle hit the ball rests just on top of the paddle, clear of
      it, and a ball that was falling now rises; a miss changes nothing. */
  lemma PaddleSendsUp(m: Motion, px: real, py: real)
    ensures var r := OffPaddle(m, px, py);
      (OnPaddle(m, px, py) ==> !OnPaddle(r, px, py) && r.y + BallSize as real == py &&
                               r.x == m.x && r.vx == m.vx && (m.vy > 0.0 ==> r.vy < 0.0)) &&
      (!OnPaddle(m, px, py) ==> r == m)
  {
  }

  /** Does the ball overlap the brick? */
  predicate Overlaps(b: Brick, x: real, y: real)
  {
    y < b.y + BrickHeight as real && y + BallSize as real > b.y &&
    x < b.x + BrickWidth as real && x + BallSize as real > b.x
  }

  /** Does the ball knock the brick out? */
  predicate Knocks(b: Brick, x: real, y: real)
  {
    b.active && Overlaps(b, x, y)
  }

  /** The wall after the sweep: every active brick the ball overlaps is
      knocked out, nothing else changes. */
  function Swept(bricks: seq<Brick>, x: real, y: real): (r: seq<Brick>)
    ensures |r| == |bricks|
    ensures forall k | 0 <= k < |r| :: r[k] == if Knocks(bricks[k], x, y) then bricks[k].(active := false) else bricks[k]
  {
    if bricks == [] then []
    else
      var b := bricks[|bricks| - 1];
      Swept(bricks[..|bricks| - 1], x, y) + [if Knocks(b, x, y) then b.(active := false) else b]
  }

  /** The number of bricks the ball knocks out; the ball's vy flips once
      for each. */
  function Hits(bricks: seq<Brick>, x: real, y: real): nat
  {
    if bricks == [] then 0
    else Hits(bricks[..|bricks| - 1], x, y) + (if Knocks(bricks[|bricks| - 1], x, y) then 1 else 0)
  }

  function ActiveCount(bricks: seq<Brick>): nat
  {
    if bricks == [] then 0
    else ActiveCount(bricks[..|bricks| - 1]) + (if bricks[|bricks| - 1].active then 1 else 0)
  }

  predicate NoneActive(bricks: seq<Brick>)
  {
    forall k | 0 <= k < |bricks| :: !bricks[k].active
  }

  /** The sweep loses exactly as many active bricks as there were hits. */
  lemma {:induction false} SweepLosesHits(bricks: seq<Brick>, x: real, y: real)
    ensures ActiveCount(Swept(bricks, x, y)) + Hits(bricks, x, y) == ActiveCount(bricks)
  {
    if bricks != [] {
      var init := bricks[..|bricks| - 1];
      SweepLosesHits(init, x, y);
      var s := Swept(bricks, x, y);
      assert s[..|s| - 1] == Swept(init, x, y);
    }
  }

  /** vy flipped once per hit. */
  function Flipped(v: real, hits: nat): real
  {
    if hits % 2 == 0 then v else -v
  }

  /** The brick loop of update_ball: it knocks out the overlapped active
      bricks, flips vy once per hit, and reports whether any brick was active
      when the sweep began. */
  method SweepBricks(bricks: seq<Brick>, x: real, y: real, vy: real) returns (swept: seq<Brick>, vy': real, allDestroyed: bool)
    ensures swept == Swept(bricks, x, y)
    ensures vy' == Flipped(vy, Hits(bricks, x, y))
    ensures allDestroyed == NoneActive(bricks)
  {
    swept, vy', allDestroyed := [], vy, true;
    var k := 0;
    while k < |bricks|
      invariant 0 <= k <= |bricks|
      invariant swept == Swept(bricks[..k], x, y)
      invariant vy' == Flipped(vy, Hits(bricks[..k], x, y))
      invariant allDestroyed == NoneActive(bricks[..k])
    {
      assert bricks[..k + 1][..k] == bricks[..k];
      var b := bricks[k];
      if b.active {
        allDestroyed := false;
        if Overlaps(b, x, y) {
          b := b.(active := false);
          vy' := -vy';
        }
      }
      swept := swept + [b];
      k := k + 1;
    }
    assert bricks[..k] == bricks;
  }

  /** zoomedPong.cpp's ball. */
  class Ball {
    var x: real
    var y: real
    var vx: real
    var vy: real

    function State(): Motion
      reads this
    {
      Motion(x, y, vx, vy)
    }

    constructor ()
      ensures State() == Serve
    {
      x, y, vx, vy := (WindowWidth / 2) as real, (WindowHeight / 2) as real, 4.0, 4.0;
    }

    /** update_ball: flight and wall bounces, the paddle, the brick sweep
        (a wall with no active brick is laid out again instead), and the
        restart of a ball that fell past the bottom.  Afterwards the ball is
        never below the bottom edge. */
    method Update(paddle: Paddle, bricks: seq<Brick>) returns (bricks': seq<Brick>)
      modifies this
      ensures var m := OffPaddle(Fly(old(State())), paddle.x, paddle.y);
        (!NoneActive(bricks) ==> bricks' == Swept(bricks, m.x, m.y)) &&
        (NoneActive(bricks) ==> |bricks'| == BrickRows * BrickCols && forall k | 0 <= k < |bricks'| :: bricks'[k] == GridBrick(k)) &&
        State() == if m.y + BallSize as real > WindowHeight as real then Serve
                   else m.(vy := Flipped(m.vy, Hits(bricks, m.x, m.y)))
      ensures y + BallSize as real <= WindowHeight as real
    {
      FlyAndBounce(paddle.x, paddle.y);
      var allDestroyed;
      bricks', vy, allDestroyed := SweepBricks(bricks, x, y, vy);
      if allDestroyed {
        bricks' := InitializeBricks();
      }
      if y + BallSize as real > WindowHeight as real {
        x, y := (WindowWidth / 2) as real, (WindowHeight / 2) as real;
        vx, vy := 4.0, 4.0;
      }
    }

    /** The first part of update_ball: the step, the wall bounces and the
        paddle. */
    method FlyAndBounce(px: real, py: real)
      modifies this
      ensures State() == OffPaddle(Fly(old(State())), px, py)
    {
      x := x + vx;
      y := y + vy;
      if x < 0.0 || x + BallSize as real > WindowWidth as real {
        vx := -vx;
      }
      if y < 0.0 {
        vy := -vy;
      }
      if y + BallSize as real > py && x + BallSize as real > px && x < px + PaddleWidth as real {
        vy := -vy;
        y := py - BallSize as real;
      }
    }
  }
}
