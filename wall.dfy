/** The 20 x 20 LED wall the C LED demos draw on, and the per-LED masks
    (movement, red pixels) the camera processing hands them. */
module LedWall {
  const LedWidth: int := 20
  const LedHeight: int := 20

  /** Is (x, y) an LED of the wall? */
  predicate InWall(x: int, y: int)
  {
    0 <= x < LedWidth && 0 <= y < LedHeight
  }

  /** One flag per LED: LED_HEIGHT rows of LED_WIDTH. */
  predicate IsMask(m: seq<seq<bool>>)
  {
    |m| == LedHeight && forall y | 0 <= y < |m| :: |m[y]| == LedWidth
  }

  /** One int per LED, row by row. */
  type Grid = seq<seq<int>>

  predicate IsGrid(g: Grid)
  {
    |g| == LedHeight && forall y | 0 <= y < |g| :: |g[y]| == LedWidth
  }

  /** The grid with cell (x, y) set to v. */
  function Put(g: Grid, x: int, y: int, v: int): (r: Grid)
    requires IsGrid(g) && InWall(x, y)
    ensures IsGrid(r)
    ensures forall y', x' | InWall(x', y') :: r[y'][x'] == if (x', y') == (x, y) then v else g[y'][x']
  {
    g[y := g[y][x := v]]
  }

  /** The flagged cells (x, y) of one mask row, left to right. */
  function RowFlagged(row: seq<bool>, y: int): (r: seq<(int, int)>)
    ensures forall k | 0 <= k < |r| :: 0 <= r[k].0 < |row| && r[k].1 == y && row[r[k].0]
  {
    if row == [] then []
    else RowFlagged(row[..|row| - 1], y) + (if row[|row| - 1] then [(|row| - 1, y)] else [])
  }

  /** The flagged cells of a mask in the order the scan meets them: row by row,
      left to right. */
  function Flagged(mask: seq<seq<bool>>): seq<(int, int)>
  {
    if mask == [] then [] else Flagged(mask[..|mask| - 1]) + RowFlagged(mask[|mask| - 1], |mask| - 1)
  }

  /** The first n items of s, or all of it. */
  function Take<T>(s: seq<T>, n: nat): (r: seq<T>)
    ensures |r| <= n && r <= s
    ensures |s| <= n ==> r == s
  {
    if |s| <= n then s else s[..n]
  }

  lemma RowFlaggedStep(row: seq<bool>, x: int, y: int)
    requires 0 <= x < |row|
    ensures RowFlagged(row[..x + 1], y) == RowFlagged(row[..x], y) + (if row[x] then [(x, y)] else [])
  {
    assert row[..x + 1][..x] == row[..x];
  }

  lemma FlaggedStep(mask: seq<seq<bool>>, y: int)
    requires 0 <= y < |mask|
    ensures Flagged(mask[..y + 1]) == Flagged(mask[..y]) + RowFlagged(mask[y], y)
  {
    assert mask[..y + 1][..y] == mask[..y];
  }

  lemma {:induction false} RowFlaggedPrefix(row: seq<bool>, a: int, y: int)
    requires 0 <= a <= |row|
    ensures RowFlagged(row[..a], y) <= RowFlagged(row, y)
    decreases |row| - a
  {
    if a < |row| {
      RowFlaggedPrefix(row, a + 1, y);
      assert row[..a + 1][..a] == row[..a];
    } else {
      assert row[..a] == row;
    }
  }

  lemma {:induction false} FlaggedPrefix(mask: seq<seq<bool>>, b: int)
    requires 0 <= b <= |mask|
    ensures Flagged(mask[..b]) <= Flagged(mask)
    decreases |mask| - b
  {
    if b < |mask| {
      FlaggedPrefix(mask, b + 1);
      assert mask[..b + 1][..b] == mask[..b];
    } else {
      assert mask[..b] == mask;
    }
  }

  /** The cells scanned up to and including (x, y) start the full list. */
  lemma ScanPrefix(mask: seq<seq<bool>>, y: int, x: int)
    requires 0 <= y < |mask| && 0 <= x < |mask[y]|
    ensures Flagged(mask[..y]) + RowFlagged(mask[y][..x + 1], y) <= Flagged(mask)
  {
    RowFlaggedPrefix(mask[y], x + 1, y);
    assert mask[..y + 1][..y] == mask[..y];
    FlaggedPrefix(mask, y + 1);
  }

  /** The flagged cells of a wall-sized mask lie on the wall. */
  lemma {:induction false} FlaggedInWall(mask: seq<seq<bool>>)
    requires |mask| <= LedHeight && forall y | 0 <= y < |mask| :: |mask[y]| == LedWidth
    ensures forall k | 0 <= k < |Flagged(mask)| :: InWall(Flagged(mask)[k].0, Flagged(mask)[k].1)
  {
    if mask != [] {
      FlaggedInWall(mask[..|mask| - 1]);
    }
  }

  /** Once a prefix holding one item more than the cap starts the list,
      the cap's worth of the list is that prefix without its last item. */
  lemma CapReached<T>(all: seq<T>, prefix: seq<T>, n: nat)
    requires prefix <= all && |prefix| == n + 1
    ensures Take(all, n) == prefix[..n]
  {
  }

  /** Concatenation regrouped. */
  lemma Regroup<T>(a: seq<T>, b: seq<T>, c: seq<T>)
    ensures (a + b) + c == a + (b + c)
  {
  }

  /** Replacing item i keeps what lies before and after it. */
  lemma UpdateAt<T>(s: seq<T>, i: int, v: T)
    requires 0 <= i < |s|
    ensures s[i := v][..i + 1] == s[..i] + [v]
  {
  }

}
