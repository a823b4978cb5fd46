/** Mode selection by hand gestures (modeSelect_handControl.py): the number
    of raised fingers is counted from the hand landmarks, a count of 1, 2 or
    3 held for more than six seconds selects the mode with that number, and
    the mode names are written with a pixel font. */
module HandModes {
  import opened Basics

  /** A landmark: its x and y in the image, y growing downwards. */
  type Landmark = (real, real)

  /** A detected hand: its handedness label and its landmarks. */
  datatype Hand = Hand(handedness: string, landmarks: seq<Landmark>)

  /** The number of landmarks the hand model reports for a hand. */
  const LandmarkCount: int := 21

  /** The (tip, pip) landmark pairs of the index, middle, ring and little
      fingers. */
  const FingerJoints: seq<(int, int)> := [(8, 6), (12, 10), (16, 14), (20, 18)]

  /** Is the thumb out: its tip (landmark 4) lies outside its joint
      (landmark 3) on the side that depends on the hand? */
  predicate ThumbOut(handedness: string, lm: seq<Landmark>)
    requires |lm| >= LandmarkCount
  {
    (handedness == "Left" && lm[4].0 > lm[3].0) || (handedness == "Right" && lm[4].0 < lm[3].0)
  }

  /** Is the finger with this (tip, pip) pair raised: is its tip above its
      middle joint? */
  predicate Raised(lm: seq<Landmark>, joint: (int, int))
    requires |lm| >= LandmarkCount && 0 <= joint.0 < LandmarkCount && 0 <= joint.1 < LandmarkCount
  {
    lm[joint.0].1 < lm[joint.1].1
  }

  /** How many of the first n finger pairs are raised. */
  function RaisedAmong(lm: seq<Landmark>, n: int): (r: nat)
    requires |lm| >= LandmarkCount && 0 <= n <= |FingerJoints|
    ensures r <= n
  {
    if n == 0 then 0 else RaisedAmong(lm, n - 1) + (if Raised(lm, FingerJoints[n - 1]) then 1 else 0)
  }

  /** The finger count of one hand: the thumb and the four fingers. */
  function FingersUp(handedness: string, lm: seq<Landmark>): nat
    requires |lm| >= LandmarkCount
  {
    (if ThumbOut(handedness, lm) then 1 else 0) + RaisedAmong(lm, |FingerJoints|)
  }

  /** A hand shows five exactly when every finger is out, and none exactly
      when no finger is; a handedness other than "Left" and "Right" never counts
      its thumb. */
  lemma {:induction false} FingersUpExtremes(handedness: string, lm: seq<Landmark>)
    requires |lm| >= LandmarkCount
    ensures FingersUp(handedness, lm) <= 5
    ensures FingersUp(handedness, lm) == 5 <==>
      ThumbOut(handedness, lm) && forall k | 0 <= k < |FingerJoints| :: Raised(lm, FingerJoints[k])
    ensures FingersUp(handedness, lm) == 0 <==>
      !ThumbOut(handedness, lm) && forall k | 0 <= k < |FingerJoints| :: !Raised(lm, FingerJoints[k])
    ensures handedness != "Left" && handedness != "Right" ==> FingersUp(handedness, lm) <= 4
  {
    var r3 := Raised(lm, FingerJoints[3]);
    var r2 := Raised(lm, FingerJoints[2]);
    var r1 := Raised(lm, FingerJoints[1]);
    var r0 := Raised(lm, FingerJoints[0]);
    assert RaisedAmong(lm, 1) == if r0 then 1 else 0;
    assert RaisedAmong(lm, 2) == RaisedAmong(lm, 1) + if r1 then 1 else 0;
    assert RaisedAmong(lm, 3) == RaisedAmong(lm, 2) + if r2 then 1 else 0;
    assert RaisedAmong(lm, 4) == RaisedAmong(lm, 3) + if r3 then 1 else 0;
  }

  /** _count_for_hand: the thumb, then each finger pair in turn. */
  method CountForHand(handedness: string, lm: seq<Landmark>) returns (count: int)
    requires |lm| >= LandmarkCount
    ensures count == FingersUp(handedness, lm)
    ensures 0 <= count <= 5
  {
    count := 0;
    if (handedness == "Left" && lm[4].0 > lm[3].0) || (handedness == "Right" && lm[4].0 < lm[3].0) {
      count := count + 1;
    }
    var i := 0;
    while i < |FingerJoints|
      invariant 0 <= i <= |FingerJoints|
      invariant count == (if ThumbOut(handedness, lm) then 1 else 0) + RaisedAmong(lm, i)
    {
      var (tip, pip) := FingerJoints[i];
      if lm[tip].1 < lm[pip].1 {
        count := count + 1;
      }
      i := i + 1;
    }
    FingersUpExtremes(handedness, lm);
  }

  /** Every hand carries the full set of landmarks. */
  predicate WellFormed(hands: seq<Hand>)
  {
    forall h | h in hands :: |h.landmarks| >= LandmarkCount
  }

  /** The finger count over the first n hands. */
  function TotalFingers(hands: seq<Hand>, n: int): int
    requires WellFormed(hands) && 0 <= n <= |hands|
  {
    if n == 0 then 0
    else TotalFingers(hands, n - 1) + FingersUp(hands[n - 1].handedness, hands[n - 1].landmarks)
  }

  /** The total lies between 0 and five per hand. */
  lemma {:induction false} TotalFingersBounded(hands: seq<Hand>, n: int)
    requires WellFormed(hands) && 0 <= n <= |hands|
    ensures 0 <= TotalFingers(hands, n) <= 5 * n
  {
    if n > 0 {
      TotalFingersBounded(hands, n - 1);
      FingersUpExtremes(hands[n - 1].handedness, hands[n - 1].landmarks);
    }
  }

  /** count_fingers: 0 without hands, otherwise the sum over the hands. */
  method CountFingers(hands: seq<Hand>) returns (total: int)
    requires WellFormed(hands)
    ensures total == TotalFingers(hands, |hands|)
    ensures hands == [] ==> total == 0
    ensures 0 <= total <= 5 * |hands|
  {
    total := 0;
    if hands != [] {
      var i := 0;
      while i < |hands|
        invariant 0 <= i <= |hands| && total == TotalFingers(hands, i)
      {
        var c := CountForHand(hands[i].handedness, hands[i].landmarks);
        total := total + c;
        i := i + 1;
      }
    }
    TotalFingersBounded(hands, |hands|);
  }

  // Text layout

  /** How many characters put_text writes on a row before it wraps. */
  const RowLength: int := 50

  /** Rows from one line of text to the next. */
  const LineSpacing: int := 6

  /** The pixel font: the width and height of each character it holds. */
  type Font = map<char, (nat, nat)>

  /** The writing position: the cursor's row and column, and the characters
      drawn on the current line. */
  datatype Pen = Pen(row: int, col: int, count: int)

  /** A character drawn with its top-left corner at (row, col). */
  datatype Glyph = Glyph(c: char, row: int, col: int)

  /** One character of put_text: the pen afterwards and the glyph drawn,
      if any.  A newline, or a full line, first moves to the start of the
      next line; a newline then draws nothing; a character the font lacks
      draws nothing either. */
  function Write(font: Font, colStart: int, pen: Pen, c: char): (Pen, Option<Glyph>)
  {
    var p := if c == '\n' || pen.count == RowLength then Pen(pen.row + LineSpacing, colStart, 0) else pen;
    if c == '\n' then (p, None)
    else if c in font then (Pen(p.row, p.col + font[c].0 + 1, p.count + 1), Some(Glyph(c, p.row, p.col)))
    else (p, None)
  }

  /** The pen and the glyphs after writing the whole text. */
  function Layout(font: Font, colStart: int, pen: Pen, text: string): (Pen, seq<Glyph>)
  {
    if text == [] then (pen, [])
    else
      var prev := Layout(font, colStart, pen, text[..|text| - 1]);
      var step := Write(font, colStart, prev.0, text[|text| - 1]);
      (step.0, prev.1 + if step.1.Some? then [step.1.value] else [])
  }

  /** The newline, wrap, unknown and known character rules of put_text. */
  lemma WriteRules(font: Font, colStart: int, pen: Pen, c: char)
    ensures c == '\n' ==> Write(font, colStart, pen, c) == (Pen(pen.row + LineSpacing, colStart, 0), None)
    ensures c != '\n' && c !in font && pen.count != RowLength ==> Write(font, colStart, pen, c) == (pen, None)
    ensures c != '\n' && c in font && pen.count != RowLength ==>
      Write(font, colStart, pen, c) == (pen.(col := pen.col + font[c].0 + 1, count := pen.count + 1), Some(Glyph(c, pen.row, pen.col)))
    ensures c != '\n' && c in font && pen.count == RowLength ==>
      Write(font, colStart, pen, c) == (Pen(pen.row + LineSpacing, colStart + font[c].0 + 1, 1), Some(Glyph(c, pen.row + LineSpacing, colStart)))
  {
  }

  /** The characters of the text that put_text draws. */
  function Drawable(font: Font, text: string): nat
  {
    if text == [] then 0
    else Drawable(font, text[..|text| - 1]) + (var c := text[|text| - 1]; if c != '\n' && c in font then 1 else 0)
  }

  /** Writing the text draws one glyph per character the font holds, each
      at or right of the starting column and at or below the starting row,
      and never more than fifty on a line. */
  lemma {:induction false} LayoutFacts(font: Font, colStart: int, pen: Pen, text: string)
    requires 0 <= pen.count <= RowLength && pen.col >= colStart
    ensures var r := Layout(font, colStart, pen, text);
      |r.1| == Drawable(font, text) && 0 <= r.0.count <= RowLength &&
      r.0.col >= colStart && r.0.row >= pen.row &&
      forall k | 0 <= k < |r.1| :: r.1[k].c in font && r.1[k].col >= colStart && r.1[k].row >= pen.row
  {
    if text != [] {
      LayoutFacts(font, colStart, pen, text[..|text| - 1]);
    }
  }

  /** put_text: each character in turn moves the cursor and possibly draws
      a glyph; the glyphs are returned in drawing order rather than painted
      into a frame. */
  method PutText(font: Font, text: string, start: (int, int)) returns (glyphs: seq<Glyph>)
    ensures glyphs == Layout(font, start.1, Pen(start.0, start.1, 0), text).1
    ensures |glyphs| == Drawable(font, text)
  {
    var columnStart := start.1;
    var cursor := start;
    var charCount := 0;
    glyphs := [];
    var i := 0;
    while i < |text|
      invariant 0 <= i <= |text|
      invariant (Pen(cursor.0, cursor.1, charCount), glyphs) == Layout(font, columnStart, Pen(start.0, start.1, 0), text[..i])
    {
      var c := text[i];
      assert text[..i + 1][..i] == text[..i];
      ghost var step := Write(font, columnStart, Pen(cursor.0, cursor.1, charCount), c);
      ghost var drawn := glyphs;
      if c == '\n' || charCount == RowLength {
        cursor := (cursor.0 + LineSpacing, columnStart);
        charCount := 0;
      }
      if c != '\n' && c in font {
        glyphs := glyphs + [Glyph(c, cursor.0, cursor.1)];
        cursor := (cursor.0, cursor.1 + font[c].0 + 1);
        charCount := charCount + 1;
      }
      assert Pen(cursor.0, cursor.1, charCount) == step.0;
      assert glyphs == drawn + if step.1.Some? then [step.1.value] else [];
      i := i + 1;
    }
    assert text[..i] == text;
    LayoutFacts(font, columnStart, Pen(start.0, start.1, 0), text);
  }

  // The dwell rule of the main loop

  /** How long, in seconds, a count must be held to select its mode. */
  const DwellSeconds: real := 6.0

  /** The main loop's memory: the count being held and when it was first
      seen, both absent while no selectable count is shown. */
  datatype Dwell = Dwell(current: Option<int>, start: Option<real>)

  /** A time stamp counts as set only when present and nonzero, as a Python
      float does in a condition. */
  predicate Truthy(t: Option<real>)
  {
    t.Some? && t.value != 0.0
  }

  /** Is the count one that names a mode? */
  predicate Selectable(count: int)
  {
    count == 1 || count == 2 || count == 3
  }

  /** One frame of the dwell rule: the new memory and the mode selected, if
      any. */
  function Next(d: Dwell, count: int, now: real): (r: (Dwell, Option<int>))
    ensures r.1.Some? ==> Selectable(r.1.value) && r.1.value == count && d.current == Some(count)
    ensures r.1.Some? ==> Truthy(d.start) && now - d.start.value > DwellSeconds && r.0 == d
    ensures r.0.current == if Selectable(count) then Some(count) else None
    ensures !Selectable(count) ==> r.0 == Dwell(None, None)
    ensures Selectable(count) && d.current != Some(count) ==> r.0 == Dwell(Some(count), Some(now))
  {
    if Selectable(count) then
      if d.current == Some(count) then
        if Truthy(d.start) && now - d.start.value > DwellSeconds then (d, Some(count)) else (d, None)
      else (Dwell(Some(count), Some(now)), None)
    else (Dwell(None, None), None)
  }

  /** The memory after a run of (count, time) frames from the start. */
  function Replay(frames: seq<(int, real)>): Dwell
  {
    if frames == [] then Dwell(None, None)
    else
      var last := frames[|frames| - 1];
      Next(Replay(frames[..|frames| - 1]), last.0, last.1).0
  }

  /** While a count is held, its start time is the time of a frame from
      which on every frame showed that count. */
  lemma {:induction false} HeldSince(frames: seq<(int, real)>)
    ensures var d := Replay(frames);
      d.current.Some? ==>
        d.start.Some? &&
        exists j | 0 <= j < |frames| ::
          frames[j].1 == d.start.value && forall k | j <= k < |frames| :: frames[k].0 == d.current.value
    ensures Replay(frames).current.None? ==> Replay(frames).start.None?
  {
    if frames != [] {
      var init := frames[..|frames| - 1];
      var last := frames[|frames| - 1];
      HeldSince(init);
      var d := Replay(init);
      if Selectable(last.0) && d.current == Some(last.0) {
        var j :| 0 <= j < |init| && init[j].1 == d.start.value &&
          forall k | j <= k < |init| :: init[k].0 == d.current.value;
        assert forall k | j <= k < |frames| :: frames[k].0 == last.0 by {
          forall k | j <= k < |frames|
            ensures frames[k].0 == last.0
          {
            if k < |init| {
              assert frames[k] == init[k];
            }
          }
        }
      } else if Selectable(last.0) {
        assert frames[|frames| - 1].1 == Replay(frames).start.value;
      }
    }
  }

  /** A mode is selected only after its count has been shown on every frame
      of a stretch lasting more than six seconds. */
  lemma SelectionIsHeld(frames: seq<(int, real)>, count: int, now: real)
    requires Next(Replay(frames), count, now).1.Some?
    ensures Selectable(count)
    ensures exists j | 0 <= j < |frames| ::
      now - frames[j].1 > DwellSeconds && forall k | j <= k < |frames| :: frames[k].0 == count
  {
    HeldSince(frames);
  }

  /** The dwell memory of the main loop. */
  class ModeDwell {
    var currentCount: Option<int>
    var startTime: Option<real>

    constructor ()
      ensures currentCount == None && startTime == None
    {
      currentCount := None;
      startTime := None;
    }

    /** One frame of App.run's selection: returns the mode when the loop
        would stop with it. */
    method Observe(fingerCount: int, now: real) returns (selected: Option<int>)
      modifies this
      ensures (Dwell(currentCount, startTime), selected) == Next(Dwell(old(currentCount), old(startTime)), fingerCount, now)
    {
      selected := None;
      if fingerCount == 1 || fingerCount == 2 || fingerCount == 3 {
        if currentCount == Some(fingerCount) {
          if startTime.Some? && startTime.value != 0.0 && now - startTime.value > DwellSeconds {
            selected := Some(fingerCount);
          }
        } else {
          currentCount := Some(fingerCount);
          startTime := Some(now);
        }
      } else {
        currentCount := None;
        startTime := None;
      }
    }

    /** App.run over the frames the camera delivers: the mode of the first
        frame that selects one, with the dwell memory as that frame left it,
        or none when no frame selects, with the memory after every frame. */
    method Run(frames: seq<(int, real)>) returns (selected: Option<int>)
      requires currentCount == None && startTime == None
      modifies this
      ensures selected.Some? ==> Selectable(selected.value)
      ensures selected.Some? ==>
        exists n | 0 <= n < |frames| ::
          selected == Next(Replay(frames[..n]), frames[n].0, frames[n].1).1 &&
          Dwell(currentCount, startTime) == Next(Replay(frames[..n]), frames[n].0, frames[n].1).0 &&
          forall m | 0 <= m < n :: Next(Replay(frames[..m]), frames[m].0, frames[m].1).1.None?
      ensures selected.None? ==>
        (forall n | 0 <= n < |frames| :: Next(Replay(frames[..n]), frames[n].0, frames[n].1).1.None?) &&
        Dwell(currentCount, startTime) == Replay(frames)
    {
      selected := None;
      var i := 0;
      while i < |frames|
        invariant 0 <= i <= |frames|
        invariant Dwell(currentCount, startTime) == Replay(frames[..i]) && selected.None?
        invariant forall n | 0 <= n < i :: Next(Replay(frames[..n]), frames[n].0, frames[n].1).1.None?
      {
        var (count, now) := frames[i];
        selected := Observe(count, now);
        if selected.Some? {
          assert selected == Next(Replay(frames[..i]), frames[i].0, frames[i].1).1;
          assert Dwell(currentCount, startTime) == Next(Replay(frames[..i]), frames[i].0, frames[i].1).0;
          return;
        }
        forall n | 0 <= n < i + 1
          ensures Next(Replay(frames[..n]), frames[n].0, frames[n].1).1.None?
        {
        }
        assert frames[..i + 1][..i] == frames[..i];
        assert Replay(frames[..i + 1]) == Next(Replay(frames[..i]), count, now).0;
        i := i + 1;
      }
      assert frames[..i] == frames;
    }
  }
}
