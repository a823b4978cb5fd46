/** The frame brickpongForJetson_v2.py's Game.run paints on its height by
    width grid (rows are y, columns x): black, then the main particle, the
    emitter's particle, every block's cell and the bar, each later write over
    the earlier ones, and nothing outside the grid. */
module GridRender {
  import opened Basics
  import opened Kinematics
  import opened Blocks

  /** The cell (row, column) = (int(y), int(x)) a particle is drawn on. */
  function CellOf(b: Body): (int, int)
  {
    (Trunc(b.y), Trunc(b.x))
  }

  /** The colour of the last block of bs whose top-left corner is the cell,
      if any: the block loop paints in list order. */
  function LastBlockAt(bs: seq<Block>, row: int, col: int): (r: Option<Rgb>)
    ensures r.None? <==> forall b | b in bs :: !(b.y == row && b.x == col)
    ensures r.Some? ==> exists b | b in bs :: b.y == row && b.x == col && b.color == r.value
  {
    if bs == [] then None
    else
      var last := bs[|bs| - 1];
      if last.y == row && last.x == col then Some(last.color)
      else
        assert forall b | b in bs :: b in bs[..|bs| - 1] || b == last;
        LastBlockAt(bs[..|bs| - 1], row, col)
  }

  /** Is the cell covered by the bar with the given corner and size? */
  predicate UnderBar(barX: int, barY: int, barWidth: int, barHeight: int, row: int, col: int)
  {
    barX <= col < barX + barWidth && barY <= row < barY + barHeight
  }

  /** The colour the frame gives a cell of the grid. */
  function Pixel(row: int, col: int, main: Body, mainColor: Rgb, slot: Option<(Body, Rgb)>, bs: seq<Block>,
                 barX: int, barY: int, barWidth: int, barHeight: int): Rgb
  {
    if UnderBar(barX, barY, barWidth, barHeight, row, col) then White
    else if LastBlockAt(bs, row, col).Some? then LastBlockAt(bs, row, col).value
    else if slot.Some? && CellOf(slot.value.0) == (row, col) then slot.value.1
    else if CellOf(main) == (row, col) then mainColor
    else Black
  }

  /** game_array[r, c] = color when (r, c) lies in the grid. */
  method Paint(grid: array2<Rgb>, row: int, col: int, color: Rgb)
    modifies grid
    ensures forall r, c | 0 <= r < grid.Length0 && 0 <= c < grid.Length1 ::
      grid[r, c] == if (r, c) == (row, col) then color else old(grid[r, c])
  {
    if 0 <= row < grid.Length0 && 0 <= col < grid.Length1 {
      grid[row, col] := color;
    }
  }

  /** The block loop: each block paints its top-left cell. */
  method PaintBlocks(grid: array2<Rgb>, bs: seq<Block>)
    modifies grid
    ensures forall r, c | 0 <= r < grid.Length0 && 0 <= c < grid.Length1 ::
      grid[r, c] == if LastBlockAt(bs, r, c).Some? then LastBlockAt(bs, r, c).value else old(grid[r, c])
  {
    var k := 0;
    while k < |bs|
      invariant 0 <= k <= |bs|
      invariant forall r, c | 0 <= r < grid.Length0 && 0 <= c < grid.Length1 ::
        grid[r, c] == if LastBlockAt(bs[..k], r, c).Some? then LastBlockAt(bs[..k], r, c).value else old(grid[r, c])
    {
      assert bs[..k + 1][..k] == bs[..k];
      Paint(grid, bs[k].y, bs[k].x, bs[k].color);
      k := k + 1;
    }
    assert bs[..k] == bs;
  }

  /** The bar loops: every cell of the bar inside the grid turns white. */
  method PaintBar(grid: array2<Rgb>, barX: int, barY: int, barWidth: int, barHeight: int)
    modifies grid
    ensures forall r, c | 0 <= r < grid.Length0 && 0 <= c < grid.Length1 ::
      grid[r, c] == if UnderBar(barX, barY, barWidth, barHeight, r, c) then White else old(grid[r, c])
  {
    var i := barX;
    while i < barX + barWidth
      invariant barX <= i && (i <= barX + barWidth || i == barX)
      invariant forall r, c | 0 <= r < grid.Length0 && 0 <= c < grid.Length1 ::
        grid[r, c] == if UnderBar(barX, barY, i - barX, barHeight, r, c) then White else old(grid[r, c])
    {
      PaintColumn(grid, i, barY, barHeight);
      i := i + 1;
    }
  }

  /** The inner bar loop, for column col. */
  method PaintColumn(grid: array2<Rgb>, col: int, top: int, height: int)
    modifies grid
    ensures forall r, c | 0 <= r < grid.Length0 && 0 <= c < grid.Length1 ::
      grid[r, c] == if c == col && top <= r < top + height then White else old(grid[r, c])
  {
    var j := top;
    while j < top + height
      invariant top <= j && (j <= top + height || j == top)
      invariant forall r, c | 0 <= r < grid.Length0 && 0 <= c < grid.Length1 ::
        grid[r, c] == if c == col && top <= r < j then White else old(grid[r, c])
    {
      Paint(grid, j, col, White);
      j := j + 1;
    }
  }

  /** The drawing part of a frame: a fresh black grid, then the main particle,
      the emitter's particle if there is one, the blocks and the bar. */
  method Render(height: nat, width: nat, main: Body, mainColor: Rgb, slot: Option<(Body, Rgb)>, bs: seq<Block>,
                barX: int, barY: int, barWidth: int, barHeight: int) returns (grid: array2<Rgb>)
    ensures fresh(grid) && grid.Length0 == height && grid.Length1 == width
    ensures forall r, c | 0 <= r < height && 0 <= c < width ::
      grid[r, c] == Pixel(r, c, main, mainColor, slot, bs, barX, barY, barWidth, barHeight)
  {
    grid := new Rgb[height, width]((_, _) => Black);
    Paint(grid, Trunc(main.y), Trunc(main.x), mainColor);
    if slot.Some? {
      Paint(grid, Trunc(slot.value.0.y), Trunc(slot.value.0.x), slot.value.1);
    }
    PaintBlocks(grid, bs);
    PaintBar(grid, barX, barY, barWidth, barHeight);
  }
}
