/** The snake games: combinedSnake.cpp's snake that moves cell by cell on a
    20-pixel grid and wraps around the window edges, and the body update
    shared with the snake mode of gameSelector2.cpp.  Both insert the new
    head, erase every food item the head touches (one owed segment per item)
    and drop the tail only when no segment is owed. */
module Snakes {
  import opened Basics

  /** The food left by the erase loop: eaten items leave, the others keep
      their order. */
  function Uneaten<F>(food: seq<F>, eaten: F -> bool): (r: seq<F>)
    ensures |r| <= |food|
  {
    if food == [] then []
    else
      var last := food[|food| - 1];
      Uneaten(food[..|food| - 1], eaten) + (if eaten(last) then [] else [last])
  }

  /** The number of items the erase loop removes. */
  function EatenCount<F>(food: seq<F>, eaten: F -> bool): nat
  {
    if food == [] then 0
    else EatenCount(food[..|food| - 1], eaten) + (if eaten(food[|food| - 1]) then 1 else 0)
  }

  /** The food shrinks by exactly the number of items eaten, no item left
      behind is one the head touches, and every item left was there before. */
  lemma {:induction false} EatingAccounts<F>(food: seq<F>, eaten: F -> bool)
    ensures |Uneaten(food, eaten)| + EatenCount(food, eaten) == |food|
    ensures forall k | 0 <= k < |Uneaten(food, eaten)| :: !eaten(Uneaten(food, eaten)[k])
    ensures forall f | f in Uneaten(food, eaten) :: f in food
  {
    if food != [] {
      var init := food[..|food| - 1];
      EatingAccounts(init, eaten);
      var r := Uneaten(food, eaten);
      assert forall k | 0 <= k < |Uneaten(init, eaten)| :: r[k] == Uneaten(init, eaten)[k];
    }
  }

  /** The erase loop: an item the head touches is erased in place and the
      iterator stays; any other item is stepped over. */
  method EatFood<F>(food: seq<F>, eaten: F -> bool) returns (rest: seq<F>, count: nat)
    ensures rest == Uneaten(food, eaten) && count == EatenCount(food, eaten)
  {
    rest, count := food, 0;
    var i := 0;
    ghost var j := 0;
    while i < |rest|
      invariant 0 <= j <= |food| && i == |Uneaten(food[..j], eaten)|
      invariant rest == Uneaten(food[..j], eaten) + food[j..]
      invariant count == EatenCount(food[..j], eaten)
      decreases |rest| - i
    {
      rest, i, count := EraseOrStep(food, j, eaten, rest, i, count);
      j := j + 1;
    }
    assert |food[j..]| == 0;
    assert food[..j] == food;
  }

  /** The body of the erase loop for the item at the iterator, food[j]. */
  method EraseOrStep<F>(food: seq<F>, ghost j: int, eaten: F -> bool, rest: seq<F>, i: int, count: nat)
      returns (rest': seq<F>, i': int, count': nat)
    requires 0 <= j < |food| && i == |Uneaten(food[..j], eaten)|
    requires rest == Uneaten(food[..j], eaten) + food[j..] && count == EatenCount(food[..j], eaten)
    ensures i' == |Uneaten(food[..j + 1], eaten)| && |rest'| - i' < |rest| - i
    ensures rest' == Uneaten(food[..j + 1], eaten) + food[j + 1..] && count' == EatenCount(food[..j + 1], eaten)
  {
    EraseStep(food, j, eaten, rest, i);
    if eaten(rest[i]) {
      rest', i', count' := rest[..i] + rest[i + 1..], i, count + 1;
    } else {
      rest', i', count' := rest, i + 1, count;
    }
  }

  /** Erasing the item after a prefix u of u + [x] + t leaves u + t. */
  lemma Splice<T>(u: seq<T>, x: T, t: seq<T>)
    ensures var s := u + ([x] + t);
      s[|u|] == x && s[..|u|] + s[|u| + 1..] == u + t && s == (u + [x]) + t
  {
    var s := u + ([x] + t);
    assert s[..|u|] == u && s[|u| + 1..] == t;
  }

  /** One turn of the erase loop: the item at the iterator is food[j]; erasing
      it, or stepping over it, keeps the loop's view. */
  lemma EraseStep<F>(food: seq<F>, j: int, eaten: F -> bool, rest: seq<F>, i: int)
    requires 0 <= j < |food| && i == |Uneaten(food[..j], eaten)|
    requires rest == Uneaten(food[..j], eaten) + food[j..]
    ensures i < |rest| && rest[i] == food[j]
    ensures eaten(food[j]) ==> rest[..i] + rest[i + 1..] == Uneaten(food[..j + 1], eaten) + food[j + 1..]
    ensures !eaten(food[j]) ==> rest == Uneaten(food[..j + 1], eaten) + food[j + 1..] && i + 1 == |Uneaten(food[..j + 1], eaten)|
    ensures EatenCount(food[..j + 1], eaten) == EatenCount(food[..j], eaten) + (if eaten(food[j]) then 1 else 0)
  {
    EatStep(food, j, eaten);
    assert food[j..] == [food[j]] + food[j + 1..];
    Splice(Uneaten(food[..j], eaten), food[j], food[j + 1..]);
  }

  /** The erase loop's view of one more item. */
  lemma EatStep<F>(food: seq<F>, j: int, eaten: F -> bool)
    requires 0 <= j < |food|
    ensures Uneaten(food[..j + 1], eaten) == Uneaten(food[..j], eaten) + (if eaten(food[j]) then [] else [food[j]])
    ensures EatenCount(food[..j + 1], eaten) == EatenCount(food[..j], eaten) + (if eaten(food[j]) then 1 else 0)
  {
    assert food[..j + 1][..j] == food[..j];
  }

  /** The body after a step: the new head in front of the old body, whose
      last segment is dropped unless a segment is owed; an owed segment is
      paid by keeping the tail. */
  function Grown<P>(body: seq<P>, head: P, owed: int): (r: (seq<P>, int))
    requires |body| > 0
    ensures owed == 0 ==> |r.0| == |body| && r.1 == 0
    ensures owed != 0 ==> |r.0| == |body| + 1 && r.1 == owed - 1
    ensures r.0[0] == head && forall k | 1 <= k < |r.0| :: r.0[k] == body[k - 1]
  {
    var longer := [head] + body;
    if owed == 0 then (longer[..|longer| - 1], 0) else (longer, owed - 1)
  }

  /** insert at the front, then pop_back or pay a segment. */
  method Grow<P>(body: seq<P>, head: P, owed: int) returns (body': seq<P>, owed': int)
    requires |body| > 0
    ensures (body', owed') == Grown(body, head, owed)
  {
    body' := [head] + body;
    if owed == 0 {
      body' := body'[..|body'| - 1];
      owed' := 0;
    } else {
      owed' := owed - 1;
    }
  }

  const WindowWidth: int := 640
  const WindowHeight: int := 480
  const GridSize: int := 20

  /** An SDL_Point. */
  datatype Point = Point(x: int, y: int)

  /** A food particle: position and radius. */
  datatype Food = Food(x: int, y: int, radius: int)

  /** A cell corner of the 20-pixel grid inside the window. */
  predicate OnGrid(x: int, y: int)
  {
    0 <= x <= WindowWidth - GridSize && 0 <= y <= WindowHeight - GridSize &&
    x % GridSize == 0 && y % GridSize == 0
  }

  /** One cell along one axis. */
  predicate AxisStep(vx: int, vy: int)
  {
    (vx == 0 && (vy == GridSize || vy == -GridSize)) || (vy == 0 && (vx == GridSize || vx == -GridSize))
  }

  /** The edge checks for one coordinate: off the low edge re-enters at the
      last cell, off the high edge at zero. */
  function Wrap(v: int, size: int): int
  {
    var a := if v < 0 then size - GridSize else v;
    if a >= size then 0 else a
  }

  /** The head after one step. */
  function NextHead(head: Point, vx: int, vy: int): Point
  {
    Point(Wrap(head.x + vx, WindowWidth), Wrap(head.y + vy, WindowHeight))
  }

  /** A step from a grid cell lands on a grid cell. */
  lemma WrapStaysOnGrid(head: Point, vx: int, vy: int)
    requires OnGrid(head.x, head.y) && AxisStep(vx, vy)
    ensures OnGrid(NextHead(head, vx, vy).x, NextHead(head, vx, vy).y)
    ensures NextHead(head, vx, vy) != head
  {
  }

  /** The hand, mirrored and scaled from the 1280 x 720 camera to the
      window, then cast to int. */
  function HandCell(handX: real, handY: real): Point
  {
    Point(Trunc(WindowWidth as real - handX / 1280.0 * WindowWidth as real), Trunc(handY / 720.0 * WindowHeight as real))
  }

  /** The turn towards the hand: along the axis where the hand is further
      away (vertical on a tie), one cell towards it. */
  function Heading(head: Point, hand: Point): (v: (int, int))
    ensures AxisStep(v.0, v.1)
    ensures v.0 != 0 ==> IntAbs(hand.x - head.x) > IntAbs(hand.y - head.y) && (v.0 > 0 <==> hand.x > head.x)
    ensures v.1 != 0 ==> IntAbs(hand.x - head.x) <= IntAbs(hand.y - head.y) && (v.1 > 0 <==> hand.y > head.y)
  {
    var dx, dy := hand.x - head.x, hand.y - head.y;
    if IntAbs(dx) > IntAbs(dy) then (if dx > 0 then GridSize else -GridSize, 0)
    else (0, if dy > 0 then GridSize else -GridSize)
  }

  /** The food collision: sqrt(d2) < r is d2 < r * r for a positive sum of
      radii, and never holds otherwise. */
  predicate Touches(head: Point, f: Food, radius: int)
  {
    var r := radius + f.radius;
    var dx, dy := head.x - f.x, head.y - f.y;
    r > 0 && dx * dx + dy * dy < r * r
  }

  function EatenAt(head: Point, radius: int): Food -> bool
  {
    (f: Food) => Touches(head, f, radius)
  }

  /** The food item initialize_food makes from two rand() draws. */
  function FoodAt(d: (nat, nat)): Food
  {
    Food(d.0 % (WindowWidth / GridSize) * GridSize, d.1 % (WindowHeight / GridSize) * GridSize, GridSize / 2)
  }

  /** initialize_food: quantity items on grid cells of the window, from
      the given random draws. */
  method InitializeFood(quantity: nat, draws: seq<(nat, nat)>) returns (food: seq<Food>)
    requires |draws| >= quantity
    ensures |food| == quantity
    ensures forall k | 0 <= k < quantity :: food[k] == FoodAt(draws[k]) && OnGrid(food[k].x, food[k].y)
  {
    food := [];
    var i := 0;
    while i < quantity
      invariant 0 <= i <= quantity && |food| == i
      invariant forall k | 0 <= k < i :: food[k] == FoodAt(draws[k]) && OnGrid(food[k].x, food[k].y)
    {
      food := food + [FoodAt(draws[i])];
      i := i + 1;
    }
  }

  /** combinedSnake.cpp's snake. */
  class Snake {
    var body: seq<Point>
    var vx: int
    var vy: int
    var radius: int
    var segmentsToAdd: int

    /** Every segment on a grid cell, one cell per step along one axis,
        never a negative debt. */
    ghost predicate Valid()
      reads this
    {
      |body| > 0 && (forall k | 0 <= k < |body| :: OnGrid(body[k].x, body[k].y)) &&
      AxisStep(vx, vy) && radius == GridSize / 2 && segmentsToAdd >= 0
    }

    constructor ()
      ensures Valid() && body == [Point(WindowWidth / 2, WindowHeight / 2)]
      ensures vx == 0 && vy == -GridSize && segmentsToAdd == 0
    {
      body := [Point(WindowWidth / 2, WindowHeight / 2)];
      vx, vy := 0, -GridSize;
      radius := GridSize / 2;
      segmentsToAdd := 0;
    }

    /** initialize_snake on an existing snake: one segment at the window
        centre, heading up, nothing owed. */
    method Initialize()
      modifies this
      ensures Valid() && body == [Point(WindowWidth / 2, WindowHeight / 2)]
      ensures vx == 0 && vy == -GridSize && segmentsToAdd == 0
    {
      body := [Point(WindowWidth / 2, WindowHeight / 2)];
      vx, vy := 0, -GridSize;
      radius := GridSize / 2;
      segmentsToAdd := 0;
    }

    /** update_snake: turn towards the hand when one is seen, step and wrap,
        eat, and grow or keep the length. */
    method Update(hand: Option<(real, real)>, food: seq<Food>) returns (food': seq<Food>)
      requires Valid()
      modifies this
      ensures Valid()
      ensures (vx, vy) == if hand.Some? then Heading(old(body[0]), HandCell(hand.value.0, hand.value.1)) else old((vx, vy))
      ensures var head := NextHead(old(body[0]), vx, vy);
        food' == Uneaten(food, EatenAt(head, radius)) &&
        (body, segmentsToAdd) == Grown(old(body), head, old(segmentsToAdd) + EatenCount(food, EatenAt(head, radius)))
    {
      Steer(hand);
      var head := StepHead();
      WrapStaysOnGrid(body[0], vx, vy);
      var eaten;
      food', eaten := EatFood(food, EatenAt(head, radius));
      body, segmentsToAdd := Grow(body, head, segmentsToAdd + eaten);
    }

    /** The turn of update_snake, taken only when a hand is seen. */
    method Steer(hand: Option<(real, real)>)
      requires |body| > 0
      modifies this
      ensures (vx, vy) == if hand.Some? then Heading(old(body[0]), HandCell(hand.value.0, hand.value.1)) else old((vx, vy))
      ensures body == old(body) && radius == old(radius) && segmentsToAdd == old(segmentsToAdd)
    {
      if hand.Some? {
        var cell := HandCell(hand.value.0, hand.value.1);
        var head := body[0];
        var dx, dy := cell.x - head.x, cell.y - head.y;
        if IntAbs(dx) > IntAbs(dy) {
          vx := if dx > 0 then GridSize else -GridSize;
          vy := 0;
        } else {
          vx := 0;
          vy := if dy > 0 then GridSize else -GridSize;
        }
      }
    }

    /** The step and the edge checks of update_snake. */
    method StepHead() returns (head: Point)
      requires |body| > 0
      ensures head == NextHead(body[0], vx, vy)
    {
      var x, y := body[0].x + vx, body[0].y + vy;
      if x < 0 {
        x := WindowWidth - GridSize;
      }
      if x >= WindowWidth {
        x := 0;
      }
      if y < 0 {
        y := WindowHeight - GridSize;
      }
      if y >= WindowHeight {
        y := 0;
      }
      head := Point(x, y);
    }
  }

  /** The game step of main: update, then a new snake and ten new food
      items once the food is gone.  When food is left the frame is exactly
      the snake's update; otherwise the snake starts afresh with the ten
      drawn items.  Either way the frame never ends without food. */
  method SnakeFrame(snake: Snake, hand: Option<(real, real)>, food: seq<Food>, draws: seq<(nat, nat)>) returns (food': seq<Food>)
    requires snake.Valid() && |draws| >= 10
    modifies snake
    ensures snake.Valid() && food' != []
    ensures var v := if hand.Some? then Heading(old(snake.body[0]), HandCell(hand.value.0, hand.value.1))
                     else old((snake.vx, snake.vy));
      var head := NextHead(old(snake.body[0]), v.0, v.1);
      var left := Uneaten(food, EatenAt(head, GridSize / 2));
      if left != [] then
        food' == left && (snake.vx, snake.vy) == v &&
        (snake.body, snake.segmentsToAdd) ==
          Grown(old(snake.body), head, old(snake.segmentsToAdd) + EatenCount(food, EatenAt(head, GridSize / 2)))
      else
        snake.body == [Point(WindowWidth / 2, WindowHeight / 2)] && snake.vx == 0 && snake.vy == -GridSize &&
        snake.segmentsToAdd == 0 && |food'| == 10 && forall k | 0 <= k < 10 :: food'[k] == FoodAt(draws[k])
  {
    food' := snake.Update(hand, food);
    if food' == [] {
      snake.Initialize();
      food' := InitializeFood(10, draws);
    }
  }

  /** A food particle of gameSelector2.cpp's snake mode. */
  datatype Morsel = Morsel(x: real, y: real, radius: int)

  /** norm(head - food) < r, as a comparison of squares. */
  function NearMorsel(head: (real, real), radius: int): Morsel -> bool
  {
    (m: Morsel) => var r := (radius + m.radius) as real;
         r > 0.0 && (head.0 - m.x) * (head.0 - m.x) + (head.1 - m.y) * (head.1 - m.y) < r * r
  }

  /** gameSelector2.cpp's snake, whose head moves freely; its steering and
      the bounce off the display edges are not part of this model, the new
      head is given. */
  class FreeSnake {
    var body: seq<(real, real)>
    const radius: int
    var segmentsToAdd: int

    ghost predicate Valid()
      reads this
    {
      |body| > 0 && segmentsToAdd >= 0
    }

    /** One segment at the display centre, radius 10, nothing owed. */
    constructor ()
      ensures Valid() && body == [(320.0, 240.0)] && radius == 10 && segmentsToAdd == 0
    {
      body := [(320.0, 240.0)];
      radius := 10;
      segmentsToAdd := 0;
    }

    /** The body update of the snake loop: insert the head, eat, then pop
        the tail or pay an owed segment. */
    method Advance(head: (real, real), food: seq<Morsel>) returns (food': seq<Morsel>)
      requires Valid()
      modifies this
      ensures Valid()
      ensures food' == Uneaten(food, NearMorsel(head, radius))
      ensures (body, segmentsToAdd) == Grown(old(body), head, old(segmentsToAdd) + EatenCount(food, NearMorsel(head, radius)))
    {
      var eaten;
      food', eaten := EatFood(food, NearMorsel(head, radius));
      body, segmentsToAdd := Grow(body, head, segmentsToAdd + eaten);
    }
  }

  /** Over a run of steps the snake grows by exactly the number of items
      eaten, minus what is still owed. */
  lemma {:induction false} GrowthIsEaten<P>(body: seq<P>, heads: seq<P>, owed: nat, meals: seq<nat>)
    requires |body| > 0 && |meals| == |heads|
    ensures var r := Steps(body, heads, owed, meals);
      r.1 >= 0 && |r.0| + r.1 == |body| + owed + Sum(meals)
  {
    if heads != [] {
      GrowthIsEaten(body, heads[..|heads| - 1], owed, meals[..|meals| - 1]);
      assert Sum(meals) == Sum(meals[..|meals| - 1]) + meals[|meals| - 1];
    }
  }

  function Sum(s: seq<nat>): nat
  {
    if s == [] then 0 else Sum(s[..|s| - 1]) + s[|s| - 1]
  }

  /** The body and debt after one step per head, eating meals[i] items at
      step i. */
  function Steps<P>(body: seq<P>, heads: seq<P>, owed: nat, meals: seq<nat>): (r: (seq<P>, int))
    requires |body| > 0 && |meals| == |heads|
    ensures |r.0| > 0 && r.1 >= 0
  {
    if heads == [] then (body, owed)
    else
      var prev := Steps(body, heads[..|heads| - 1], owed, meals[..|meals| - 1]);
      Grown(prev.0, heads[|heads| - 1], prev.1 + meals[|meals| - 1])
  }
}
