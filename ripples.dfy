/** The ripple demo of optimisedRipplePixels.cpp: every LED where the camera
    sees movement starts a ripple, each ripple widens by one LED per frame,
    lights the LEDs it covers with its remaining lifetime, and disappears once
    that lifetime is spent.  At most MAX_RIPPLES ripples are started. */
module Ripples {
  import opened Basics
  import opened LedWall

  const RippleDuration: int := 60
  const MaxRipples: int := 500

  /** A ripple: its centre LED, its radius in LEDs and its remaining frames.
      Its random start and end colours are not modelled. */
  datatype Ripple = Ripple(cx: int, cy: int, radius: int, duration: int)

  /** The integer part of the square root of n, which is what converting the
      floating-point square root of a small whole number to int yields. */
  function FloorSqrt(n: nat): (r: nat)
    ensures r * r <= n < (r + 1) * (r + 1)
  {
    if n == 0 then 0
    else
      var s := FloorSqrt(n - 1);
      if (s + 1) * (s + 1) <= n then s + 1 else s
  }

  /** The squared distance between the ripple's centre and LED (x, y). */
  function Dist2(r: Ripple, x: int, y: int): nat
  {
    (r.cx - x) * (r.cx - x) + (r.cy - y) * (r.cy - y)
  }

  /** Does the ripple cover LED (x, y): is the truncated distance at most
      its radius? */
  predicate Reaches(r: Ripple, x: int, y: int)
  {
    FloorSqrt(Dist2(r, x, y)) <= r.radius
  }

  lemma SquareMonotone(a: nat, b: nat)
    requires a <= b
    ensures a * a <= b * b
  {
  }

  /** A ripple covers exactly the LEDs whose squared distance is below the
      square of its radius plus one. */
  lemma ReachesWithin(r: Ripple, x: int, y: int)
    ensures Reaches(r, x, y) <==>
      r.radius >= 0 && Dist2(r, x, y) < (r.radius + 1) * (r.radius + 1)
  {
    var s := FloorSqrt(Dist2(r, x, y));
    if r.radius >= 0 {
      if s <= r.radius {
        SquareMonotone(s + 1, r.radius + 1);
      } else {
        SquareMonotone(r.radius + 1, s);
      }
    }
  }

  /** One frame of a ripple: it widens by one and loses a frame. */
  function Aged(r: Ripple): (a: Ripple)
    ensures a.cx == r.cx && a.cy == r.cy
    ensures a.radius == r.radius + 1 && a.duration == r.duration - 1
  {
    r.(radius := r.radius + 1, duration := r.duration - 1)
  }

  /** A ripple keeps covering what it covered: ageing only widens it. */
  lemma AgedCoversMore(r: Ripple, x: int, y: int)
    requires Reaches(r, x, y)
    ensures Reaches(Aged(r), x, y)
  {
  }

  /** A ripple after n frames. */
  function AgedTimes(r: Ripple, n: nat): Ripple
  {
    if n == 0 then r else Aged(AgedTimes(r, n - 1))
  }

  /** After n frames a ripple is n wider and n frames older, so a fresh
      ripple is removed by exactly its RIPPLE_DURATION-th update. */
  lemma {:induction false} RippleLifetime(r: Ripple, n: nat)
    ensures AgedTimes(r, n) == r.(radius := r.radius + n, duration := r.duration - n)
    ensures r == Fresh(r.cx, r.cy) ==> (AgedTimes(r, n).duration > 0 <==> n < RippleDuration)
  {
    if n > 0 {
      RippleLifetime(r, n - 1);
    }
  }

  /** The ripple detect_movement starts at LED (x, y). */
  function Fresh(x: int, y: int): Ripple
  {
    Ripple(x, y, 0, RippleDuration)
  }

  /** Fresh ripples on the given cells. */
  function Started(cells: seq<(int, int)>): (r: seq<Ripple>)
    ensures |r| == |cells|
    ensures forall k | 0 <= k < |r| :: r[k] == Fresh(cells[k].0, cells[k].1)
  {
    seq(|cells|, k requires 0 <= k < |cells| => Fresh(cells[k].0, cells[k].1))
  }

  lemma StartedSnoc(cells: seq<(int, int)>, c: (int, int))
    ensures Started(cells + [c]) == Started(cells) + [Fresh(c.0, c.1)]
  {
  }

  /** How many more ripples may start while n are active. */
  function Room(n: int): (r: nat)
    ensures n < MaxRipples ==> n + r == MaxRipples
    ensures n >= MaxRipples ==> r == 0
  {
    if n < MaxRipples then MaxRipples - n else 0
  }

  /** Taking one more item of a list under a cap of n. */
  lemma TakeSnoc<T>(s: seq<T>, c: T, n: nat)
    ensures Take(s + [c], n) == if |s| < n then s + [c] else Take(s, n)
  {
    if |s| >= n {
      assert (s + [c])[..n] == s[..n];
    }
  }

  /** The value LED timer t takes when the ripples rs paint it in turn: the
      duration of the last ripple covering (x, y), or t if none does. */
  function Painted(rs: seq<Ripple>, t: int, x: int, y: int): int
  {
    if rs == [] then t
    else if Reaches(rs[|rs| - 1], x, y) then rs[|rs| - 1].duration
    else Painted(rs[..|rs| - 1], t, x, y)
  }

  /** An LED no ripple covers keeps its timer. */
  lemma {:induction false} UncoveredKeeps(rs: seq<Ripple>, t: int, x: int, y: int)
    requires forall k | 0 <= k < |rs| :: !Reaches(rs[k], x, y)
    ensures Painted(rs, t, x, y) == t
  {
    if rs != [] {
      UncoveredKeeps(rs[..|rs| - 1], t, x, y);
    }
  }

  /** The last ripple covering an LED sets its timer. */
  lemma {:induction false} LastRippleWins(rs: seq<Ripple>, k: int, t: int, x: int, y: int)
    requires 0 <= k < |rs| && Reaches(rs[k], x, y)
    requires forall j | k < j < |rs| :: !Reaches(rs[j], x, y)
    ensures Painted(rs, t, x, y) == rs[k].duration
  {
    if k < |rs| - 1 {
      LastRippleWins(rs[..|rs| - 1], k, t, x, y);
    }
  }

  /** Painting with one more ripple. */
  lemma PaintedStep(rs: seq<Ripple>, i: int, t: int, x: int, y: int)
    requires 0 <= i < |rs|
    ensures Painted(rs[..i + 1], t, x, y) ==
      if Reaches(rs[i], x, y) then rs[i].duration else Painted(rs[..i], t, x, y)
  {
    assert rs[..i + 1][..i] == rs[..i];
  }

  /** Painting keeps timers between 0 and RIPPLE_DURATION when every ripple's
      duration lies there. */
  lemma {:induction false} PaintedBounded(rs: seq<Ripple>, t: int, x: int, y: int)
    requires 0 <= t <= RippleDuration
    requires forall k | 0 <= k < |rs| :: 0 <= rs[k].duration <= RippleDuration
    ensures 0 <= Painted(rs, t, x, y) <= RippleDuration
  {
    if rs != [] {
      PaintedBounded(rs[..|rs| - 1], t, x, y);
    }
  }

  /** The ripples the erase-remove step keeps, in order: those with frames
      left. */
  function Survivors(rs: seq<Ripple>): (r: seq<Ripple>)
    ensures |r| <= |rs|
    ensures forall k | 0 <= k < |r| :: r[k].duration > 0
  {
    if rs == [] then []
    else
      var last := rs[|rs| - 1];
      Survivors(rs[..|rs| - 1]) + (if last.duration <= 0 then [] else [last])
  }

  /** A ripple survives exactly when it is one of the list with frames left. */
  lemma {:induction false} SurvivorsExact(rs: seq<Ripple>, r: Ripple)
    ensures r in Survivors(rs) <==> r in rs && r.duration > 0
  {
    if rs != [] {
      var init := rs[..|rs| - 1];
      SurvivorsExact(init, r);
      assert rs == init + [rs[|rs| - 1]];
    }
  }

  /** The LEDs' timers and the active ripples. */
  class RippleWall {
    var ripples: seq<Ripple>
    var timers: Grid

    /** Every ripple has frames left and has widened by exactly the frames it
        has lost; every timer lies between 0 and RIPPLE_DURATION. */
    ghost predicate Valid()
      reads this
    {
      IsGrid(timers) &&
      (forall y, x | InWall(x, y) :: 0 <= timers[y][x] <= RippleDuration) &&
      forall k | 0 <= k < |ripples| ::
        0 < ripples[k].duration <= RippleDuration && ripples[k].radius + ripples[k].duration == RippleDuration
    }

    /** No ripples; every LED green with timer 0. */
    constructor ()
      ensures Valid() && ripples == []
      ensures forall y, x | InWall(x, y) :: timers[y][x] == 0
    {
      ripples := [];
      timers := seq(LedHeight, y => seq(LedWidth, x => 0));
    }

    /** detect_movement: a fresh ripple on each moving LED, in scan order,
        for as long as fewer than MAX_RIPPLES are active. */
    method DetectMovement(mask: seq<seq<bool>>)
      requires Valid() && IsMask(mask)
      modifies this
      ensures Valid()
      ensures ripples == old(ripples) + Started(Take(Flagged(mask), Room(|old(ripples)|)))
      ensures |old(ripples)| < MaxRipples ==> |ripples| <= MaxRipples
      ensures |old(ripples)| >= MaxRipples ==> ripples == old(ripples)
      ensures timers == old(timers)
    {
      var active := |ripples|;
      var y := 0;
      while y < LedHeight
        invariant 0 <= y <= LedHeight && timers == old(timers)
        invariant ripples == old(ripples) + Started(Take(Flagged(mask[..y]), Room(|old(ripples)|)))
        invariant active == |ripples|
      {
        active := DetectRow(mask, y, active, old(ripples));
        y := y + 1;
      }
      assert mask[..y] == mask;
    }

    /** The inner loop of detect_movement, for row y. */
    method DetectRow(mask: seq<seq<bool>>, y: int, active0: int, ghost start: seq<Ripple>) returns (active: int)
      requires IsMask(mask) && 0 <= y < LedHeight
      requires ripples == start + Started(Take(Flagged(mask[..y]), Room(|start|)))
      requires active0 == |ripples|
      modifies this
      ensures ripples == start + Started(Take(Flagged(mask[..y + 1]), Room(|start|)))
      ensures active == |ripples| && timers == old(timers)
    {
      active := active0;
      ghost var scanned := Flagged(mask[..y]);
      var x := 0;
      while x < LedWidth
        invariant 0 <= x <= LedWidth && timers == old(timers)
        invariant scanned == Flagged(mask[..y]) + RowFlagged(mask[y][..x], y)
        invariant ripples == start + Started(Take(scanned, Room(|start|)))
        invariant active == |ripples|
      {
        RowFlaggedStep(mask[y], x, y);
        if mask[y][x] {
          active := StartAt(x, y, active, scanned, start);
          Regroup(Flagged(mask[..y]), RowFlagged(mask[y][..x], y), [(x, y)]);
          scanned := scanned + [(x, y)];
        }
        x := x + 1;
      }
      assert mask[y][..x] == mask[y];
      FlaggedStep(mask, y);
    }

    /** The body of the inner loop of detect_movement at a moving LED: a
        ripple starts there while fewer than MAX_RIPPLES are active. */
    method StartAt(x: int, y: int, active0: int, ghost scanned: seq<(int, int)>, ghost start: seq<Ripple>) returns (active: int)
      requires ripples == start + Started(Take(scanned, Room(|start|))) && active0 == |ripples|
      modifies this
      ensures ripples == start + Started(Take(scanned + [(x, y)], Room(|start|))) && active == |ripples|
      ensures timers == old(timers)
    {
      active := active0;
      ghost var room := Room(|start|);
      TakeSnoc(scanned, (x, y), room);
      if active < MaxRipples {
        assert |scanned| < room && Take(scanned, room) == scanned;
        StartedSnoc(scanned, (x, y));
        ripples := ripples + [Fresh(x, y)];
        assert ripples == start + Started(scanned + [(x, y)]);
        active := active + 1;
      } else {
        assert Take(scanned + [(x, y)], room) == Take(scanned, room);
      }
    }

    /** update_ripple_effects: every ripple widens by one and loses a frame,
        then lights the LEDs it covers with its remaining frames, a later
        ripple overwriting an earlier one; the ripples with no frames left are
        then dropped. */
    method UpdateRippleEffects()
      requires Valid()
      modifies this
      ensures Valid()
      ensures ripples == Survivors(AgedAll(old(ripples)))
      ensures forall k | 0 <= k < |old(ripples)| ::
        Aged(old(ripples)[k]).duration > 0 <==> Aged(old(ripples)[k]) in ripples
      ensures forall y, x | InWall(x, y) ::
        timers[y][x] == Painted(AgedAll(old(ripples)), old(timers)[y][x], x, y)
    {
      AgeAndPaint();
      forall y, x | InWall(x, y)
        ensures 0 <= timers[y][x] <= RippleDuration
      {
        PaintedBounded(ripples, old(timers)[y][x], x, y);
      }
      ghost var aged := ripples;
      ripples := Survivors(ripples);
      forall k | 0 <= k < |old(ripples)|
        ensures Aged(old(ripples)[k]).duration > 0 <==> Aged(old(ripples)[k]) in ripples
      {
        SurvivorsExact(aged, aged[k]);
      }
      forall k | 0 <= k < |ripples|
        ensures ripples[k] in aged
      {
        SurvivorsExact(aged, ripples[k]);
      }
    }

    /** The loop over the ripples in update_ripple_effects. */
    method AgeAndPaint()
      requires IsGrid(timers)
      modifies this
      ensures IsGrid(timers) && ripples == AgedAll(old(ripples))
      ensures forall y, x | InWall(x, y) ::
        timers[y][x] == Painted(ripples, old(timers)[y][x], x, y)
    {
      var i := 0;
      while i < |ripples|
        invariant 0 <= i <= |ripples| == |old(ripples)| && IsGrid(timers)
        invariant ripples == AgedAll(old(ripples)[..i]) + old(ripples)[i..]
        invariant forall y, x | InWall(x, y) :: timers[y][x] == Painted(ripples[..i], old(timers)[y][x], x, y)
      {
        ghost var before := timers;
        AgeStep(old(ripples), i);
        ripples := ripples[i := Aged(ripples[i])];
        PaintLoop(ripples[i]);
        forall y, x | InWall(x, y)
          ensures timers[y][x] == Painted(ripples[..i + 1], old(timers)[y][x], x, y)
        {
          PaintedStep(ripples, i, old(timers)[y][x], x, y);
        }
        i := i + 1;
      }
      assert old(ripples)[..i] == old(ripples);
    }

    /** The inner loops of update_ripple_effects, for one ripple. */
    method PaintLoop(r: Ripple)
      requires IsGrid(timers)
      modifies this
      ensures IsGrid(timers) && ripples == old(ripples)
      ensures forall y, x | InWall(x, y) ::
        timers[y][x] == if Reaches(r, x, y) then r.duration else old(timers)[y][x]
    {
      var y := 0;
      while y < LedHeight
        invariant 0 <= y <= LedHeight && IsGrid(timers) && ripples == old(ripples)
        invariant forall y', x | InWall(x, y') ::
          timers[y'][x] == if y' < y && Reaches(r, x, y') then r.duration else old(timers)[y'][x]
      {
        var x := 0;
        while x < LedWidth
          invariant 0 <= x <= LedWidth && IsGrid(timers) && ripples == old(ripples)
          invariant forall y', x' | InWall(x', y') ::
            timers[y'][x'] ==
            if (y' < y || (y' == y && x' < x)) && Reaches(r, x', y') then r.duration else old(timers)[y'][x']
        {
          var dist := FloorSqrt(Dist2(r, x, y));
          if dist <= r.radius {
            timers := Put(timers, x, y, r.duration);
          }
          x := x + 1;
        }
        y := y + 1;
      }
    }

    /** The timer part of update_led_states: a positive timer loses a frame,
        any other timer is left alone. */
    method UpdateLedStates()
      requires Valid()
      modifies this
      ensures Valid() && ripples == old(ripples)
      ensures forall y, x | InWall(x, y) ::
        timers[y][x] == if old(timers)[y][x] > 0 then old(timers)[y][x] - 1 else old(timers)[y][x]
    {
      var y := 0;
      while y < LedHeight
        invariant 0 <= y <= LedHeight && IsGrid(timers) && ripples == old(ripples)
        invariant forall y', x | InWall(x, y') ::
          timers[y'][x] == if y' < y && old(timers)[y'][x] > 0 then old(timers)[y'][x] - 1 else old(timers)[y'][x]
      {
        var x := 0;
        while x < LedWidth
          invariant 0 <= x <= LedWidth && IsGrid(timers) && ripples == old(ripples)
          invariant forall y', x' | InWall(x', y') ::
            timers[y'][x'] ==
            if (y' < y || (y' == y && x' < x)) && old(timers)[y'][x'] > 0 then old(timers)[y'][x'] - 1
            else old(timers)[y'][x']
        {
          if timers[y][x] > 0 {
            timers := Put(timers, x, y, timers[y][x] - 1);
          }
          x := x + 1;
        }
        y := y + 1;
      }
    }

    /** One frame of the main loop: movement (absent on the first frame)
        starts ripples in scan order up to the cap, then every ripple ages
        and paints the LEDs it covers, the expired ones are dropped, and
        every positive timer loses a frame. */
    method Frame(moved: Option<seq<seq<bool>>>)
      requires Valid() && (moved.Some? ==> IsMask(moved.value))
      modifies this
      ensures Valid()
      ensures |ripples| <= if |old(ripples)| < MaxRipples then MaxRipples else |old(ripples)|
      ensures var started := if moved.Some? then old(ripples) + Started(Take(Flagged(moved.value), Room(|old(ripples)|)))
                             else old(ripples);
        ripples == Survivors(AgedAll(started)) &&
        forall y, x | InWall(x, y) ::
          timers[y][x] == var t := Painted(AgedAll(started), old(timers)[y][x], x, y); if t > 0 then t - 1 else t
    {
      if moved.Some? {
        DetectMovement(moved.value);
      }
      UpdateRippleEffects();
      UpdateLedStates();
    }
  }

  /** Ageing one more ripple of the list. */
  lemma AgeStep(rs: seq<Ripple>, i: int)
    requires 0 <= i < |rs|
    ensures (AgedAll(rs[..i]) + rs[i..])[i := Aged(rs[i])] == AgedAll(rs[..i + 1]) + rs[i + 1..]
    ensures (AgedAll(rs[..i]) + rs[i..])[i := Aged(rs[i])][..i] == AgedAll(rs[..i])
  {
  }

  /** Every ripple after one frame. */
  function AgedAll(rs: seq<Ripple>): (r: seq<Ripple>)
    ensures |r| == |rs| && forall k | 0 <= k < |rs| :: r[k] == Aged(rs[k])
  {
    seq(|rs|, k requires 0 <= k < |rs| => Aged(rs[k]))
  }
}
