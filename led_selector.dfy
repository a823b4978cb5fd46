/** The mode selector of gameSelector2.cpp: a 20 x 20 wall of LEDs that turn
    red where the camera sees movement and fade back to green, two movement
    counters for the left and right halves of the wall, and the rule that
    picks mode 1 or 2 after six consecutive detections on one side. */
module LedSelector {
  import opened Basics
  import opened LedWall

  /** Frames an LED stays red after movement. */
  const RedDuration: int := 10
  /** More moving pixels than this on one half count as movement there. */
  const MinActivePixels: int := 10
  /** Frames between two checks of the counters. */
  const CheckInterval: int := 15
  const RequiredConsecutiveDetections: int := 6

  /** The two colours the selector gives an LED. */
  datatype Shade = Green | Red

  /** PixelState: a colour and the frames left before it turns green. */
  datatype Led = Led(color: Shade, timer: int)

  /** An LED whose colour agrees with its timer: red exactly while the timer
      runs, and the timer never above RED_DURATION. */
  predicate Coherent(l: Led)
  {
    0 <= l.timer <= RedDuration && (l.color == Red <==> l.timer > 0)
  }

  /** An LED where movement was seen. */
  const Marked: Led := Led(Red, RedDuration)

  /** update_led_states on one LED: a running timer counts down and the LED
      turns green when it reaches zero; a stopped timer changes nothing. */
  function Tick(l: Led): (r: Led)
    ensures l.timer > 0 ==> r.timer == l.timer - 1
    ensures l.timer <= 0 ==> r == l
    ensures r.color == Green <==> l.color == Green || l.timer == 1
    ensures r.color == Red ==> l.color == Red
  {
    if l.timer > 0 then
      var t := l.timer - 1;
      Led(if t == 0 then Green else l.color, t)
    else l
  }

  /** Both a tick and a mark keep an LED coherent. */
  lemma TickKeepsCoherent(l: Led)
    requires Coherent(l)
    ensures Coherent(Tick(l)) && Coherent(Marked)
  {
  }

  /** The LED after n ticks. */
  function Ticks(l: Led, n: nat): Led
  {
    if n == 0 then l else Tick(Ticks(l, n - 1))
  }

  /** A coherent LED stays red for exactly its remaining timer and is green,
      with a stopped timer, from then on. */
  lemma {:induction false} FadesToGreen(l: Led, n: nat)
    requires Coherent(l)
    ensures Ticks(l, n) == if n >= l.timer then Led(Green, 0) else Led(Red, l.timer - n)
  {
    if n > 0 {
      FadesToGreen(l, n - 1);
    }
  }

  /** The number of set flags among row[lo..hi]. */
  function CountTrue(row: seq<bool>, lo: int, hi: int): nat
    requires 0 <= lo <= hi <= |row|
    decreases hi - lo
  {
    if hi == lo then 0 else CountTrue(row, lo, hi - 1) + (if row[hi - 1] then 1 else 0)
  }

  /** The number of set flags in columns lo..hi of the first rows rows. */
  function BandCount(m: seq<seq<bool>>, rows: int, lo: int, hi: int): nat
    requires 0 <= rows <= |m| && 0 <= lo <= hi
    requires forall y | 0 <= y < rows :: hi <= |m[y]|
  {
    if rows == 0 then 0 else BandCount(m, rows - 1, lo, hi) + CountTrue(m[rows - 1], lo, hi)
  }

  /** Moving pixels on the left half of the wall (x < LED_WIDTH / 2). */
  function LeftMovement(m: seq<seq<bool>>): nat
    requires IsMask(m)
  {
    BandCount(m, LedHeight, 0, LedWidth / 2)
  }

  /** Moving pixels on the right half of the wall. */
  function RightMovement(m: seq<seq<bool>>): nat
    requires IsMask(m)
  {
    BandCount(m, LedHeight, LedWidth / 2, LedWidth)
  }

  lemma {:induction false} CountSplit(row: seq<bool>, lo: int, mid: int, hi: int)
    requires 0 <= lo <= mid <= hi <= |row|
    ensures CountTrue(row, lo, hi) == CountTrue(row, lo, mid) + CountTrue(row, mid, hi)
    decreases hi - mid
  {
    if hi > mid {
      CountSplit(row, lo, mid, hi - 1);
    }
  }

  lemma {:induction false} BandSplit(m: seq<seq<bool>>, rows: int, lo: int, mid: int, hi: int)
    requires 0 <= rows <= |m| && 0 <= lo <= mid <= hi
    requires forall y | 0 <= y < rows :: hi <= |m[y]|
    ensures BandCount(m, rows, lo, hi) == BandCount(m, rows, lo, mid) + BandCount(m, rows, mid, hi)
  {
    if rows > 0 {
      BandSplit(m, rows - 1, lo, mid, hi);
      CountSplit(m[rows - 1], lo, mid, hi);
    }
  }

  /** Every moving pixel is counted once, on the left or on the right. */
  lemma EveryPixelCountedOnce(m: seq<seq<bool>>)
    requires IsMask(m)
    ensures LeftMovement(m) + RightMovement(m) == BandCount(m, LedHeight, 0, LedWidth)
  {
    BandSplit(m, LedHeight, 0, LedWidth / 2, LedWidth);
  }

  /** A movement counter after one frame: up by one on significant movement,
      otherwise down by one but never below zero. */
  function Bump(counter: int, movement: int): (r: int)
    ensures movement > MinActivePixels ==> r == counter + 1
    ensures movement <= MinActivePixels ==> r <= counter || r == 0
    ensures movement <= MinActivePixels && counter > 0 ==> r == counter - 1
    ensures counter >= 0 ==> r >= 0
  {
    if movement > MinActivePixels then counter + 1 else if counter - 1 > 0 then counter - 1 else 0
  }

  /** The detections after one check of the counters: the left side is tried
      first, and a side that qualifies resets the other. */
  function Detect(d: (int, int), leftCounter: int, rightCounter: int): (r: (int, int))
  {
    if leftCounter >= CheckInterval then (d.0 + 1, 0)
    else if rightCounter >= CheckInterval then (0, d.1 + 1)
    else (0, 0)
  }

  /** The mode a check returns, if any. */
  function Selection(d: (int, int)): (r: Option<int>)
    ensures r.Some? ==> r.value == 1 || r.value == 2
    ensures r == Some(1) <==> d.0 >= RequiredConsecutiveDetections
    ensures r == Some(2) <==> d.0 < RequiredConsecutiveDetections && d.1 >= RequiredConsecutiveDetections
  {
    if d.0 >= RequiredConsecutiveDetections then Some(1)
    else if d.1 >= RequiredConsecutiveDetections then Some(2)
    else None
  }

  /** The detections after a series of checks, each given by the pair of
      counters it saw. */
  function Detections(d: (int, int), checks: seq<(int, int)>): (int, int)
  {
    if checks == [] then d
    else
      var last := checks[|checks| - 1];
      Detect(Detections(d, checks[..|checks| - 1]), last.0, last.1)
  }

  /** Did the check qualify for the left side, or for the right side? */
  predicate LeftCheck(c: (int, int)) { c.0 >= CheckInterval }
  predicate RightCheck(c: (int, int)) { c.0 < CheckInterval && c.1 >= CheckInterval }

  /** From no detections, a count of k on one side means exactly that the
      last k checks qualified for that side; at most one side counts. */
  lemma {:induction false} DetectionsAreRuns(checks: seq<(int, int)>)
    ensures var d := Detections((0, 0), checks);
      0 <= d.0 <= |checks| && 0 <= d.1 <= |checks| && (d.0 == 0 || d.1 == 0) &&
      (forall i | |checks| - d.0 <= i < |checks| :: LeftCheck(checks[i])) &&
      (forall i | |checks| - d.1 <= i < |checks| :: RightCheck(checks[i])) &&
      (d.0 < |checks| ==> !LeftCheck(checks[|checks| - 1 - d.0])) &&
      (d.1 < |checks| ==> !RightCheck(checks[|checks| - 1 - d.1]))
  {
    if checks != [] {
      var init := checks[..|checks| - 1];
      DetectionsAreRuns(init);
      assert forall i | 0 <= i < |init| :: init[i] == checks[i];
    }
  }

  /** Six qualifying checks in a row on one side select that side's mode,
      whatever came before. */
  lemma {:induction false} SixInARowSelects(d: (int, int), checks: seq<(int, int)>)
    requires d.0 >= 0 && d.1 >= 0
    requires |checks| >= RequiredConsecutiveDetections
    ensures (forall i | 0 <= i < |checks| :: LeftCheck(checks[i])) ==> Selection(Detections(d, checks)) == Some(1)
    ensures (forall i | 0 <= i < |checks| :: RightCheck(checks[i])) ==> Selection(Detections(d, checks)) == Some(2)
  {
    if forall i | 0 <= i < |checks| :: LeftCheck(checks[i]) {
      LeftRun(d, checks);
    }
    if forall i | 0 <= i < |checks| :: RightCheck(checks[i]) {
      RightRun(d, checks);
    }
  }

  lemma {:induction false} LeftRun(d: (int, int), checks: seq<(int, int)>)
    requires d.0 >= 0
    requires forall i | 0 <= i < |checks| :: LeftCheck(checks[i])
    ensures Detections(d, checks).0 >= |checks|
  {
    if checks != [] {
      LeftRun(d, checks[..|checks| - 1]);
    }
  }

  lemma {:induction false} RightRun(d: (int, int), checks: seq<(int, int)>)
    requires d.1 >= 0
    requires forall i | 0 <= i < |checks| :: RightCheck(checks[i])
    ensures Detections(d, checks).1 >= |checks|
  {
    if checks != [] {
      RightRun(d, checks[..|checks| - 1]);
    }
  }

  /** The state mode_selector keeps across frames. */
  class ModeSelector {
    const leds: array2<Led>
    var leftCounter: int
    var rightCounter: int
    var frameCount: int
    var leftDetections: int
    var rightDetections: int

    ghost predicate Valid()
      reads this, leds
    {
      leds.Length0 == LedHeight && leds.Length1 == LedWidth &&
      (forall y, x | 0 <= y < LedHeight && 0 <= x < LedWidth :: Coherent(leds[y, x])) &&
      leftCounter >= 0 && rightCounter >= 0 && frameCount >= 0 &&
      leftDetections >= 0 && rightDetections >= 0 && (leftDetections == 0 || rightDetections == 0)
    }

    /** All LEDs green with stopped timers, every counter zero. */
    constructor ()
      ensures Valid() && fresh(leds)
      ensures forall y, x | 0 <= y < LedHeight && 0 <= x < LedWidth :: leds[y, x] == Led(Green, 0)
      ensures leftCounter == 0 && rightCounter == 0 && frameCount == 0
      ensures leftDetections == 0 && rightDetections == 0
    {
      leds := new Led[LedHeight, LedWidth]((_, _) => Led(Green, 0));
      leftCounter, rightCounter, frameCount := 0, 0, 0;
      leftDetections, rightDetections := 0, 0;
    }

    /** The counting part of detect_movement: every moving pixel turns red
        with a full timer, and each half's counter follows its own count. */
    method DetectMovement(moved: seq<seq<bool>>)
      requires Valid() && IsMask(moved)
      modifies this, leds
      ensures Valid()
      ensures forall y, x | 0 <= y < LedHeight && 0 <= x < LedWidth ::
        leds[y, x] == if moved[y][x] then Marked else old(leds[y, x])
      ensures leftCounter == Bump(old(leftCounter), LeftMovement(moved))
      ensures rightCounter == Bump(old(rightCounter), RightMovement(moved))
      ensures frameCount == old(frameCount)
      ensures leftDetections == old(leftDetections) && rightDetections == old(rightDetections)
    {
      var left, right := MarkAll(moved);
      assert forall y, x | 0 <= y < LedHeight && 0 <= x < LedWidth :: Coherent(leds[y, x]);
      leftCounter := Bump(leftCounter, left);
      rightCounter := Bump(rightCounter, right);
    }

    /** The loops of detect_movement: every moving pixel is marked, and the
        moving pixels of each half are counted. */
    method MarkAll(moved: seq<seq<bool>>) returns (left: nat, right: nat)
      requires leds.Length0 == LedHeight && leds.Length1 == LedWidth && IsMask(moved)
      modifies leds
      ensures forall y, x | 0 <= y < LedHeight && 0 <= x < LedWidth ::
        leds[y, x] == if moved[y][x] then Marked else old(leds[y, x])
      ensures left == LeftMovement(moved) && right == RightMovement(moved)
    {
      left, right := 0, 0;
      var y := 0;
      while y < LedHeight
        invariant 0 <= y <= LedHeight
        invariant left == BandCount(moved, y, 0, LedWidth / 2)
        invariant right == BandCount(moved, y, LedWidth / 2, LedWidth)
        invariant forall r, c | 0 <= r < LedHeight && 0 <= c < LedWidth ::
          leds[r, c] == if r < y && moved[r][c] then Marked else old(leds[r, c])
      {
        var l, r := MarkRow(y, moved[y]);
        left, right := left + l, right + r;
        y := y + 1;
      }
    }

    /** The inner loop of detect_movement, for row y. */
    method MarkRow(y: int, row: seq<bool>) returns (left: nat, right: nat)
      requires leds.Length0 == LedHeight && leds.Length1 == LedWidth
      requires 0 <= y < LedHeight && |row| == LedWidth
      modifies leds
      ensures forall r, c | 0 <= r < LedHeight && 0 <= c < LedWidth ::
        leds[r, c] == if r == y && row[c] then Marked else old(leds[r, c])
      ensures left == CountTrue(row, 0, LedWidth / 2) && right == CountTrue(row, LedWidth / 2, LedWidth)
    {
      left, right := 0, 0;
      var x := 0;
      while x < LedWidth
        invariant 0 <= x <= LedWidth
        invariant left == CountTrue(row, 0, if x < LedWidth / 2 then x else LedWidth / 2)
        invariant right == CountTrue(row, LedWidth / 2, if x < LedWidth / 2 then LedWidth / 2 else x)
        invariant forall r, c | 0 <= r < LedHeight && 0 <= c < LedWidth ::
          leds[r, c] == if r == y && c < x && row[c] then Marked else old(leds[r, c])
      {
        if row[x] {
          leds[y, x] := Marked;
          if x < LedWidth / 2 {
            left := left + 1;
          } else {
            right := right + 1;
          }
        }
        x := x + 1;
      }
    }

    /** update_led_states: every LED ticks once. */
    method UpdateLedStates()
      requires Valid()
      modifies leds
      ensures Valid()
      ensures forall y, x | 0 <= y < LedHeight && 0 <= x < LedWidth :: leds[y, x] == Tick(old(leds[y, x]))
    {
      var y := 0;
      while y < LedHeight
        invariant 0 <= y <= LedHeight
        invariant forall r, c | 0 <= r < LedHeight && 0 <= c < LedWidth ::
          leds[r, c] == if r < y then Tick(old(leds[r, c])) else old(leds[r, c])
      {
        TickRow(y);
        y := y + 1;
      }
      forall y, x | 0 <= y < LedHeight && 0 <= x < LedWidth
        ensures Coherent(leds[y, x])
      {
        TickKeepsCoherent(old(leds[y, x]));
      }
    }

    /** The inner loop of update_led_states, for row y. */
    method TickRow(y: int)
      requires leds.Length0 == LedHeight && leds.Length1 == LedWidth && 0 <= y < LedHeight
      modifies leds
      ensures forall r, c | 0 <= r < LedHeight && 0 <= c < LedWidth ::
        leds[r, c] == if r == y then Tick(old(leds[r, c])) else old(leds[r, c])
    {
      var x := 0;
      while x < LedWidth
        invariant 0 <= x <= LedWidth
        invariant forall r, c | 0 <= r < LedHeight && 0 <= c < LedWidth ::
          leds[r, c] == if r == y && c < x then Tick(old(leds[r, c])) else old(leds[r, c])
      {
        if leds[y, x].timer > 0 {
          leds[y, x] := leds[y, x].(timer := leds[y, x].timer - 1);
          if leds[y, x].timer == 0 {
            leds[y, x] := leds[y, x].(color := Green);
          }
        }
        x := x + 1;
      }
    }

    /** The end of a frame of mode_selector: every CHECK_INTERVAL frames the
        counters are checked and a mode may be returned. */
    method Check() returns (mode: Option<int>)
      requires Valid()
      modifies this
      ensures Valid()
      ensures frameCount == old(frameCount) + 1
      ensures leftCounter == old(leftCounter) && rightCounter == old(rightCounter)
      ensures frameCount % CheckInterval != 0 ==>
        mode == None && leftDetections == old(leftDetections) && rightDetections == old(rightDetections)
      ensures frameCount % CheckInterval == 0 ==>
        (leftDetections, rightDetections) == Detect((old(leftDetections), old(rightDetections)), leftCounter, rightCounter) &&
        mode == Selection((leftDetections, rightDetections))
    {
      frameCount := frameCount + 1;
      mode := None;
      if frameCount % CheckInterval == 0 {
        if leftCounter >= CheckInterval {
          leftDetections := leftDetections + 1;
          rightDetections := 0;
        } else if rightCounter >= CheckInterval {
          rightDetections := rightDetections + 1;
          leftDetections := 0;
        } else {
          leftDetections := 0;
          rightDetections := 0;
        }
        if leftDetections >= RequiredConsecutiveDetections {
          mode := Some(1);
        } else if rightDetections >= RequiredConsecutiveDetections {
          mode := Some(2);
        }
      }
    }

    /** One pass of mode_selector's loop: movement detection when there is a
        previous frame, the LED update, then the check, which on every
        CHECK_INTERVAL-th frame advances the detections with the counters
        just bumped and returns their selection. */
    method Frame(moved: Option<seq<seq<bool>>>) returns (mode: Option<int>)
      requires Valid() && (moved.Some? ==> IsMask(moved.value))
      modifies this, leds
      ensures Valid()
      ensures forall y, x | 0 <= y < LedHeight && 0 <= x < LedWidth ::
        leds[y, x] == Tick(if moved.Some? && moved.value[y][x] then Marked else old(leds[y, x]))
      ensures moved.None? ==> leftCounter == old(leftCounter) && rightCounter == old(rightCounter)
      ensures moved.Some? ==> leftCounter == Bump(old(leftCounter), LeftMovement(moved.value)) &&
                              rightCounter == Bump(old(rightCounter), RightMovement(moved.value))
      ensures frameCount == old(frameCount) + 1
      ensures frameCount % CheckInterval != 0 ==>
        mode == None && leftDetections == old(leftDetections) && rightDetections == old(rightDetections)
      ensures frameCount % CheckInterval == 0 ==>
        (leftDetections, rightDetections) == Detect((old(leftDetections), old(rightDetections)), leftCounter, rightCounter) &&
        mode == Selection((leftDetections, rightDetections))
    {
      if moved.Some? {
        DetectMovement(moved.value);
      }
      UpdateLedStates();
      mode := Check();
    }
  }
}
