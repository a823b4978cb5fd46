/** The falling-sand demo of video2Array_fallinSand_noFloat.c: red pixels
    seen by the camera drop, one row per frame, until they land on the bottom
    row or on sand that has already settled; settled sand stays for
    SETTLE_DURATION frames and then disappears. */
module FallingSand {
  import opened LedWall

  const SettleDuration: int := 300
  const MaxNewFloatingPixels: int := 10

  /** A falling pixel: its LED and its settle count (SETTLE_DURATION while
      falling, 0 once settled).  Its colour is always red. */
  datatype FloatingPixel = FloatingPixel(x: int, y: int, settleFrames: int)

  /** Every cell of the accumulation grid is 0 or 1. */
  predicate Binary(g: Grid)
    requires IsGrid(g)
  {
    forall y, x | 0 <= y < LedHeight && 0 <= x < LedWidth :: g[y][x] == 0 || g[y][x] == 1
  }

  /** New falling pixels on the given cells. */
  function Spawned(cells: seq<(int, int)>): (r: seq<FloatingPixel>)
    ensures |r| == |cells|
    ensures forall k | 0 <= k < |r| :: r[k] == FloatingPixel(cells[k].0, cells[k].1, SettleDuration)
  {
    seq(|cells|, k requires 0 <= k < |cells| => FloatingPixel(cells[k].0, cells[k].1, SettleDuration))
  }

  lemma SpawnedSnoc(cells: seq<(int, int)>, c: (int, int))
    ensures Spawned(cells + [c]) == Spawned(cells) + [FloatingPixel(c.0, c.1, SettleDuration)]
  {
  }

  /** One pixel of update_floating_pixels: it drops a row when it is above
      the bottom row and the cell below holds no sand; otherwise it settles,
      marking its own cell as sand for SETTLE_DURATION frames. */
  function Fall(p: FloatingPixel, acc: Grid, timers: Grid): (r: (FloatingPixel, Grid, Grid))
    requires IsGrid(acc) && IsGrid(timers) && InWall(p.x, p.y)
    ensures IsGrid(r.1) && IsGrid(r.2) && InWall(r.0.x, r.0.y) && r.0.x == p.x
    ensures r.0.y == p.y + 1 <==> p.y < LedHeight - 1 && acc[p.y + 1][p.x] == 0
    ensures r.0.y == p.y + 1 ==> r.0 == p.(y := p.y + 1) && r.1 == acc && r.2 == timers
    ensures r.0.y != p.y + 1 ==>
      r.0 == p.(settleFrames := 0) && r.1 == Put(acc, p.x, p.y, 1) && r.2 == Put(timers, p.x, p.y, SettleDuration)
  {
    if p.y < LedHeight - 1 && acc[p.y + 1][p.x] == 0 then (p.(y := p.y + 1), acc, timers)
    else (p.(settleFrames := 0), Put(acc, p.x, p.y, 1), Put(timers, p.x, p.y, SettleDuration))
  }

  /** The pixel loop of update_floating_pixels, in list order: a pixel that
      settles is sand for the pixels after it. */
  function FallAll(ps: seq<FloatingPixel>, acc: Grid, timers: Grid): (r: (seq<FloatingPixel>, Grid, Grid))
    requires IsGrid(acc) && IsGrid(timers)
    requires forall k | 0 <= k < |ps| :: InWall(ps[k].x, ps[k].y)
    ensures |r.0| == |ps| && IsGrid(r.1) && IsGrid(r.2)
    ensures forall k | 0 <= k < |ps| ::
      InWall(r.0[k].x, r.0[k].y) && (r.0[k] == ps[k].(y := ps[k].y + 1) || r.0[k] == ps[k].(settleFrames := 0))
    ensures Binary(acc) ==> Binary(r.1)
  {
    if ps == [] then (ps, acc, timers)
    else
      var prev := FallAll(ps[..|ps| - 1], acc, timers);
      var step := Fall(ps[|ps| - 1], prev.1, prev.2);
      (prev.0 + [step.0], step.1, step.2)
  }

  /** The pixels still falling: remove_if on settle_frames <= 0. */
  function Airborne(ps: seq<FloatingPixel>): (r: seq<FloatingPixel>)
    ensures |r| <= |ps|
    ensures forall k | 0 <= k < |r| :: r[k].settleFrames > 0 && r[k] in ps
  {
    if ps == [] then []
    else
      var last := ps[|ps| - 1];
      Airborne(ps[..|ps| - 1]) + (if last.settleFrames <= 0 then [] else [last])
  }

  /** remove_if keeps a pixel exactly when it is still falling. */
  lemma {:induction false} AirborneExact(ps: seq<FloatingPixel>, p: FloatingPixel)
    ensures p in Airborne(ps) <==> p in ps && p.settleFrames > 0
  {
    if ps != [] {
      var init := ps[..|ps| - 1];
      AirborneExact(init, p);
      assert ps == init + [ps[|ps| - 1]];
    }
  }

  /** The countdown of one cell: sand loses a frame and is cleared once its
      timer reaches zero or less; a cell without sand is left alone. */
  function Countdown(a: int, t: int): (r: (int, int))
  {
    if a == 1 then (if t - 1 <= 0 then 0 else 1, t - 1) else (a, t)
  }

  function Countdowns(c: (int, int), n: nat): (int, int)
  {
    if n == 0 then c else Countdown(Countdowns(c, n - 1).0, Countdowns(c, n - 1).1)
  }

  /** Freshly settled sand stays exactly SETTLE_DURATION frames. */
  lemma {:induction false} SandLasts(t: int, n: nat)
    requires t > 0
    ensures Countdowns((1, t), n) == if n < t then (1, t - n) else (0, 0)
  {
    if n > 0 {
      SandLasts(t, n - 1);
    }
  }

  /** FallAll on one more pixel. */
  lemma FallAllStep(ps: seq<FloatingPixel>, i: int, acc: Grid, timers: Grid)
    requires IsGrid(acc) && IsGrid(timers) && 0 <= i < |ps|
    requires forall k | 0 <= k < |ps| :: InWall(ps[k].x, ps[k].y)
    ensures var prev := FallAll(ps[..i], acc, timers);
      var step := Fall(ps[i], prev.1, prev.2);
      FallAll(ps[..i + 1], acc, timers) == (prev.0 + [step.0], step.1, step.2)
  {
    assert ps[..i + 1][..i] == ps[..i];
  }

  /** The sand wall: the falling pixels, the sand and its timers. */
  class SandWall {
    var floating: seq<FloatingPixel>
    var accumulated: Grid
    var settleTimers: Grid

    ghost predicate Valid()
      reads this
    {
      IsGrid(accumulated) && IsGrid(settleTimers) && Binary(accumulated) &&
      forall k | 0 <= k < |floating| :: InWall(floating[k].x, floating[k].y) && floating[k].settleFrames > 0
    }

    /** No falling pixel, no sand. */
    constructor ()
      ensures Valid() && floating == []
      ensures forall y, x | InWall(x, y) :: accumulated[y][x] == 0 && settleTimers[y][x] == 0
    {
      floating := [];
      accumulated := seq(LedHeight, _ => seq(LedWidth, _ => 0));
      settleTimers := seq(LedHeight, _ => seq(LedWidth, _ => 0));
    }

    /** detect_and_float_red_pixels: a new falling pixel on each red cell,
        in scan order, and at most MAX_NEW_FLOATING_PIXELS of them; the scan
        stops at the first red cell beyond the cap. */
    method DetectAndFloat(mask: seq<seq<bool>>)
      requires Valid() && IsMask(mask)
      modifies this
      ensures Valid()
      ensures floating == old(floating) + Spawned(Take(Flagged(mask), MaxNewFloatingPixels))
      ensures |floating| <= |old(floating)| + MaxNewFloatingPixels
      ensures accumulated == old(accumulated) && settleTimers == old(settleTimers)
    {
      FlaggedInWall(mask);
      var count := 0;
      var y := 0;
      while y < LedHeight
        invariant 0 <= y <= LedHeight
        invariant count == |Flagged(mask[..y])| <= MaxNewFloatingPixels
        invariant floating == old(floating) + Spawned(Flagged(mask[..y]))
        invariant accumulated == old(accumulated) && settleTimers == old(settleTimers)
      {
        var full;
        count, full := ScanRow(mask, y, count, old(floating));
        if full {
          return;
        }
        y := y + 1;
      }
      assert mask[..y] == mask;
    }

    /** The inner loop of detect_and_float_red_pixels, for row y: it reports
        whether the scan met a red cell beyond the cap. */
    method ScanRow(mask: seq<seq<bool>>, y: int, count0: int, ghost start: seq<FloatingPixel>) returns (count: int, full: bool)
      requires IsMask(mask) && 0 <= y < LedHeight
      requires count0 == |Flagged(mask[..y])| <= MaxNewFloatingPixels
      requires floating == start + Spawned(Flagged(mask[..y]))
      modifies this
      ensures full ==> floating == start + Spawned(Take(Flagged(mask), MaxNewFloatingPixels))
      ensures !full ==> count == |Flagged(mask[..y + 1])| <= MaxNewFloatingPixels &&
                        floating == start + Spawned(Flagged(mask[..y + 1]))
      ensures accumulated == old(accumulated) && settleTimers == old(settleTimers)
    {
      count, full := count0, false;
      ghost var scanned := Flagged(mask[..y]);
      var x := 0;
      while x < LedWidth
        invariant 0 <= x <= LedWidth
        invariant scanned == Flagged(mask[..y]) + RowFlagged(mask[y][..x], y)
        invariant count == |scanned| <= MaxNewFloatingPixels
        invariant floating == start + Spawned(scanned)
        invariant accumulated == old(accumulated) && settleTimers == old(settleTimers)
      {
        RowFlaggedStep(mask[y], x, y);
        if mask[y][x] {
          count, full := FloatAt(mask, x, y, count, scanned, start);
          if full {
            return;
          }
          Regroup(Flagged(mask[..y]), RowFlagged(mask[y][..x], y), [(x, y)]);
          scanned := scanned + [(x, y)];
        }
        x := x + 1;
      }
      assert mask[y][..x] == mask[y];
      FlaggedStep(mask, y);
    }

    /** The body of the inner loop of detect_and_float_red_pixels at a red
        LED: a falling pixel starts there, or, with the cap reached, the scan
        is over. */
    method FloatAt(mask: seq<seq<bool>>, x: int, y: int, count0: int, ghost scanned: seq<(int, int)>, ghost start: seq<FloatingPixel>)
        returns (count: int, full: bool)
      requires IsMask(mask) && InWall(x, y) && mask[y][x]
      requires scanned == Flagged(mask[..y]) + RowFlagged(mask[y][..x], y)
      requires count0 == |scanned| <= MaxNewFloatingPixels && floating == start + Spawned(scanned)
      modifies this
      ensures full ==> floating == start + Spawned(Take(Flagged(mask), MaxNewFloatingPixels))
      ensures !full ==> count == |scanned| + 1 <= MaxNewFloatingPixels && floating == start + Spawned(scanned + [(x, y)])
      ensures accumulated == old(accumulated) && settleTimers == old(settleTimers)
    {
      count, full := count0, false;
      if count < MaxNewFloatingPixels {
        SpawnedSnoc(scanned, (x, y));
        floating := floating + [FloatingPixel(x, y, SettleDuration)];
        count := count + 1;
      } else {
        RowFlaggedStep(mask[y], x, y);
        ScanPrefix(mask, y, x);
        CapReached(Flagged(mask), scanned + [(x, y)], MaxNewFloatingPixels);
        full := true;
      }
    }

    /** update_floating_pixels: the pixels fall or settle in list order, the
        settled ones leave the list, then every sand cell counts down. */
    method Update()
      requires Valid()
      modifies this
      ensures Valid()
      ensures var fallen := FallAll(old(floating), old(accumulated), old(settleTimers));
        floating == Airborne(fallen.0) &&
        forall y, x | InWall(x, y) :: (accumulated[y][x], settleTimers[y][x]) == Countdown(fallen.1[y][x], fallen.2[y][x])
    {
      FallLoop();
      floating := Airborne(floating);
      CountdownLoop();
    }

    /** The first loop of update_floating_pixels. */
    method FallLoop()
      requires Valid()
      modifies this
      ensures IsGrid(accumulated) && IsGrid(settleTimers) && Binary(accumulated)
      ensures (floating, accumulated, settleTimers) == FallAll(old(floating), old(accumulated), old(settleTimers))
      ensures forall k | 0 <= k < |floating| :: InWall(floating[k].x, floating[k].y)
    {
      var i := 0;
      while i < |floating|
        invariant 0 <= i <= |floating| == |old(floating)|
        invariant (floating[..i], accumulated, settleTimers) == FallAll(old(floating)[..i], old(accumulated), old(settleTimers))
        invariant forall k | i <= k < |floating| :: floating[k] == old(floating)[k]
      {
        FallAllStep(old(floating), i, old(accumulated), old(settleTimers));
        var p := FallOne(floating[i]);
        UpdateAt(floating, i, p);
        floating := floating[i := p];
        i := i + 1;
      }
      assert floating[..i] == floating && old(floating)[..i] == old(floating);
    }

    /** The body of the first loop, for one pixel. */
    method FallOne(p: FloatingPixel) returns (p': FloatingPixel)
      requires IsGrid(accumulated) && IsGrid(settleTimers) && InWall(p.x, p.y)
      modifies this
      ensures (p', accumulated, settleTimers) == Fall(p, old(accumulated), old(settleTimers))
      ensures floating == old(floating)
    {
      p' := p;
      if p.y < LedHeight - 1 && accumulated[p.y + 1][p.x] == 0 {
        p' := p.(y := p.y + 1);
      } else {
        accumulated := Put(accumulated, p.x, p.y, 1);
        settleTimers := Put(settleTimers, p.x, p.y, SettleDuration);
        p' := p.(settleFrames := 0);
      }
    }

    /** The last loop of update_floating_pixels. */
    method CountdownLoop()
      requires IsGrid(accumulated) && IsGrid(settleTimers) && Binary(accumulated)
      modifies this
      ensures IsGrid(accumulated) && IsGrid(settleTimers) && Binary(accumulated)
      ensures forall y, x | InWall(x, y) ::
        (accumulated[y][x], settleTimers[y][x]) == Countdown(old(accumulated)[y][x], old(settleTimers)[y][x])
      ensures floating == old(floating)
    {
      var y := 0;
      while y < LedHeight
        invariant 0 <= y <= LedHeight
        invariant IsGrid(accumulated) && IsGrid(settleTimers) && floating == old(floating)
        invariant forall y', x | InWall(x, y') ::
          (accumulated[y'][x], settleTimers[y'][x]) ==
          if y' < y then Countdown(old(accumulated)[y'][x], old(settleTimers)[y'][x])
          else (old(accumulated)[y'][x], old(settleTimers)[y'][x])
      {
        var x := 0;
        while x < LedWidth
          invariant 0 <= x <= LedWidth
          invariant IsGrid(accumulated) && IsGrid(settleTimers) && floating == old(floating)
          invariant forall y', x' | InWall(x', y') ::
            (accumulated[y'][x'], settleTimers[y'][x']) ==
            if y' < y || (y' == y && x' < x) then Countdown(old(accumulated)[y'][x'], old(settleTimers)[y'][x'])
            else (old(accumulated)[y'][x'], old(settleTimers)[y'][x'])
        {
          if accumulated[y][x] == 1 {
            settleTimers := Put(settleTimers, x, y, settleTimers[y][x] - 1);
            if settleTimers[y][x] <= 0 {
              accumulated := Put(accumulated, x, y, 0);
            }
          }
          x := x + 1;
        }
        y := y + 1;
      }
    }
  }
}
