/** The Particle class of the two list-based brick-pong variants: damped
    integration with reflection at the field edges.  brickPongForJetson.py
    reflects when the predicted coordinate leaves the closed range [0, bound];
    brickpongForJetson_v2.py when it leaves the half-open range [0, bound). */
module Kinematics {
  import opened Basics

  /** Every particle is created with this damping factor. */
  const Damping: real := 0.98

  datatype EdgeRule = Closed | HalfOpen

  /** Does the coordinate p lie outside the field along an axis of length bound? */
  predicate Leaves(p: real, bound: real, rule: EdgeRule)
  {
    match rule
    case Closed => p < 0.0 || p > bound
    case HalfOpen => p < 0.0 || p >= bound
  }

  /** The abstract state of a particle. */
  datatype Body = Body(x: real, y: real, dx: real, dy: real, ax: real, ay: real, lifespan: Option<int>)

  /** Lifespan after one move: one less when present, absent stays absent. */
  function CountDown(l: Option<int>): Option<int>
  {
    if l.Some? then Some(l.value - 1) else None
  }

  /** One axis of a move: the damped velocity v, negated when the predicted
      coordinate p + v leaves the field. */
  function Bounce(p: real, v: real, bound: real, rule: EdgeRule): real
  {
    if Leaves(p + v, bound, rule) then -v else v
  }

  /** The state after Particle.move(width, height). */
  function Moved(b: Body, width: real, height: real, rule: EdgeRule): Body
  {
    var vx := (b.dx + b.ax) * Damping;
    var vy := (b.dy + b.ay) * Damping;
    var dx := Bounce(b.x, vx, width, rule);
    var dy := Bounce(b.y, vy, height, rule);
    b.(x := b.x + dx, y := b.y + dy, dx := dx, dy := dy, lifespan := CountDown(b.lifespan))
  }

  /** n successive moves in a field of fixed size. */
  function MovedN(b: Body, n: nat, width: real, height: real, rule: EdgeRule): Body
  {
    if n == 0 then b else Moved(MovedN(b, n - 1, width, height, rule), width, height, rule)
  }

  predicate InField(b: Body, width: real, height: real, rule: EdgeRule)
  {
    !Leaves(b.x, width, rule) && !Leaves(b.y, height, rule)
  }

  class Particle {
    var x: real
    var y: real
    var dx: real
    var dy: real
    var ax: real
    var ay: real
    var lifespan: Option<int>
    const color: Rgb

    function State(): Body
      reads this
    {
      Body(x, y, dx, dy, ax, ay, lifespan)
    }

    /** Particle(x, y, speed, direction, color, lifespan): the initial velocity
        (speed·cos, speed·sin of the direction) is passed in as dx, dy. */
    constructor (x: real, y: real, dx: real, dy: real, color: Rgb, lifespan: Option<int>)
      ensures State() == Body(x, y, dx, dy, 0.0, 0.0, lifespan)
      ensures this.color == color
    {
      this.x, this.y := x, y;
      this.dx, this.dy := dx, dy;
      this.ax, this.ay := 0.0, 0.0;
      this.lifespan := lifespan;
      this.color := color;
    }

    /** move(width, height): acceleration is added and the damping applied
        before the edge test on the predicted position; a component is negated
        exactly when its predicted coordinate leaves the field, and the position
        then advances by the possibly negated velocity. */
    method Move(width: real, height: real, rule: EdgeRule)
      modifies this
      ensures State() == Moved(old(State()), width, height, rule)
    {
      dx := dx + ax;
      dy := dy + ay;
      dx := dx * Damping;
      dy := dy * Damping;
      var nextX := x + dx;
      var nextY := y + dy;
      if lifespan.Some? {
        lifespan := Some(lifespan.value - 1);
      }
      if Leaves(nextX, width, rule) {
        dx := -dx;
      }
      if Leaves(nextY, height, rule) {
        dy := -dy;
      }
      x := x + dx;
      y := y + dy;
    }

    /** update_acceleration(ax, ay): the input is stored scaled by the damping. */
    method UpdateAcceleration(ax: real, ay: real)
      modifies this
      ensures State() == old(State()).(ax := ax * Damping, ay := ay * Damping)
    {
      this.ax := ax * Damping;
      this.ay := ay * Damping;
    }
  }

  /** The states of a list of particles, in order. */
  function States(ps: seq<Particle>): (r: seq<Body>)
    reads ps
    ensures |r| == |ps|
    ensures forall i | 0 <= i < |ps| :: r[i] == ps[i].State()
  {
    if ps == [] then [] else States(ps[..|ps| - 1]) + [ps[|ps| - 1].State()]
  }

  /** The lifespan drops by exactly one per move when present and stays absent otherwise. */
  lemma {:induction false} LifespanAfterMoves(b: Body, n: nat, width: real, height: real, rule: EdgeRule)
    ensures MovedN(b, n, width, height, rule).lifespan
         == (if b.lifespan.Some? then Some(b.lifespan.value - n) else None)
  {
    if n > 0 {
      LifespanAfterMoves(b, n - 1, width, height, rule);
    }
  }

  /** The edge test of one axis: the component keeps its magnitude and changes
      sign exactly when the predicted coordinate leaves the field. */
  lemma BounceFlipsOnlyAtEdges(p: real, v: real, bound: real, rule: EdgeRule)
    ensures Abs(Bounce(p, v, bound, rule)) == Abs(v)
    ensures Bounce(p, v, bound, rule) != v <==> v != 0.0 && Leaves(p + v, bound, rule)
  {
  }

  /** With no acceleration, no velocity component ever grows. */
  lemma {:induction false} SpeedNeverGrows(b: Body, n: nat, width: real, height: real, rule: EdgeRule)
    requires b.ax == 0.0 && b.ay == 0.0
    ensures Abs(MovedN(b, n, width, height, rule).dx) <= Abs(b.dx)
    ensures Abs(MovedN(b, n, width, height, rule).dy) <= Abs(b.dy)
    ensures MovedN(b, n, width, height, rule).ax == 0.0 && MovedN(b, n, width, height, rule).ay == 0.0
  {
    if n > 0 {
      SpeedNeverGrows(b, n - 1, width, height, rule);
      MoveNoFaster(MovedN(b, n - 1, width, height, rule), width, height, rule);
    }
  }

  lemma MoveNoFaster(b: Body, width: real, height: real, rule: EdgeRule)
    requires b.ax == 0.0 && b.ay == 0.0
    ensures Abs(Moved(b, width, height, rule).dx) <= Abs(b.dx)
    ensures Abs(Moved(b, width, height, rule).dy) <= Abs(b.dy)
    ensures Moved(b, width, height, rule).ax == 0.0 && Moved(b, width, height, rule).ay == 0.0
  {
    BounceFlipsOnlyAtEdges(b.x, (b.dx + b.ax) * Damping, width, rule);
    BounceFlipsOnlyAtEdges(b.y, (b.dy + b.ay) * Damping, height, rule);
  }

  /** One axis: a step of at most half the field, reflected at the edge, lands inside. */
  lemma AxisStays(p: real, v: real, bound: real, rule: EdgeRule)
    requires !Leaves(p, bound, rule) && Abs(v) * 2.0 <= bound
    ensures !Leaves(p + Bounce(p, v, bound, rule), bound, rule)
  {
  }

  /** A particle whose damped velocity is at most half the field along each axis
      never leaves the field: a reflected step lands back inside. */
  lemma StaysInField(b: Body, width: real, height: real, rule: EdgeRule)
    requires InField(b, width, height, rule)
    requires Abs((b.dx + b.ax) * Damping) * 2.0 <= width
    requires Abs((b.dy + b.ay) * Damping) * 2.0 <= height
    ensures InField(Moved(b, width, height, rule), width, height, rule)
  {
    AxisStays(b.x, (b.dx + b.ax) * Damping, width, rule);
    AxisStays(b.y, (b.dy + b.ay) * Damping, height, rule);
  }
}
