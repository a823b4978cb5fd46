/** The struct-of-arrays particle emitter of brickPong.py: a fixed number of
    slots whose positions, velocities, accelerations and lifespans live in
    parallel arrays, updated by whole-array operations, with every expired or
    escaped slot regenerated at the centre; the block update over those
    arrays; and the end of a frame of its Game.run. */
module ParticleArrays {
  import opened Basics
  import opened Kinematics
  import opened Blocks
  import opened Emitters
  import opened Arena

  /** The random draws of generate_particle: dx and dy from randint(1, 10),
      ax and ay from uniform(-1, 1), and a random colour. */
  datatype Draw = Draw(dx: int, dy: int, ax: real, ay: real, color: Rgb)

  /** The state generate_particle gives a slot: centre of the screen, the
      drawn velocity and acceleration, lifespan 300. */
  function Spawned(width: int, height: int, d: Draw): Body
  {
    Body((width / 2) as real, (height / 2) as real, d.dx as real, d.dy as real, d.ax, d.ay, Some(Lifespan))
  }

  /** The whole-array motion of update for one slot: acceleration added,
      damping applied, position advanced; there is no reflection. */
  function Drifted(b: Body): Body
  {
    var vx := (b.dx + b.ax) * Damping;
    var vy := (b.dy + b.ay) * Damping;
    b.(x := b.x + vx, y := b.y + vy, dx := vx, dy := vy)
  }

  /** The mask of update, on the moved slot and its lifespan before the
      decrement: alive and inside the closed field. */
  predicate Kept(b: Body, width: int, height: int)
  {
    b.lifespan.Some? && b.lifespan.value > 0
    && 0.0 <= b.x <= width as real && 0.0 <= b.y <= height as real
  }

  /** A slot after update: moved with one less lifespan when kept, otherwise
      regenerated from its draw. */
  function Recycled(b: Body, width: int, height: int, d: Draw): (r: Body)
    ensures Kept(Drifted(b), width, height) ==> r.lifespan == CountDown(b.lifespan) && r.x == Drifted(b).x && r.y == Drifted(b).y
    ensures !Kept(Drifted(b), width, height) ==> r == Spawned(width, height, d)
  {
    var m := Drifted(b);
    if Kept(m, width, height) then m.(lifespan := CountDown(m.lifespan)) else Spawned(width, height, d)
  }

  /** Lifespans never exceed 300: regeneration restores 300 and a kept slot
      only counts down, and a slot that update keeps lies in the field. */
  lemma RecycledBounds(b: Body, width: int, height: int, d: Draw)
    requires b.lifespan.Some? && b.lifespan.value <= Lifespan
    ensures Recycled(b, width, height, d).lifespan.Some?
    ensures Recycled(b, width, height, d).lifespan.value <= Lifespan
    ensures Kept(Drifted(b), width, height) ==>
      Recycled(b, width, height, d).lifespan.value < Lifespan &&
      0.0 <= Recycled(b, width, height, d).x <= width as real && 0.0 <= Recycled(b, width, height, d).y <= height as real
  {
  }

  /** a[i] += b[i] for every i. */
  method AddInto(a: array<real>, b: array<real>)
    requires a != b && a.Length == b.Length
    modifies a
    ensures forall i | 0 <= i < a.Length :: a[i] == old(a[i]) + b[i]
  {
    var i := 0;
    while i < a.Length
      invariant 0 <= i <= a.Length
      invariant forall j | 0 <= j < i :: a[j] == old(a[j]) + b[j]
      invariant forall j | i <= j < a.Length :: a[j] == old(a[j])
    {
      a[i] := a[i] + b[i];
      i := i + 1;
    }
  }

  /** a[i] *= 0.98 for every i. */
  method Damp(a: array<real>)
    modifies a
    ensures forall i | 0 <= i < a.Length :: a[i] == old(a[i]) * Damping
  {
    var i := 0;
    while i < a.Length
      invariant 0 <= i <= a.Length
      invariant forall j | 0 <= j < i :: a[j] == old(a[j]) * Damping
      invariant forall j | i <= j < a.Length :: a[j] == old(a[j])
    {
      a[i] := a[i] * Damping;
      i := i + 1;
    }
  }

  /** a[i] -= 1 for every i. */
  method Decrement(a: array<int>)
    modifies a
    ensures forall i | 0 <= i < a.Length :: a[i] == old(a[i]) - 1
  {
    var i := 0;
    while i < a.Length
      invariant 0 <= i <= a.Length
      invariant forall j | 0 <= j < i :: a[j] == old(a[j]) - 1
      invariant forall j | i <= j < a.Length :: a[j] == old(a[j])
    {
      a[i] := a[i] - 1;
      i := i + 1;
    }
  }

  class ArrayEmitter {
    const screenWidth: int
    const screenHeight: int
    const numParticles: nat
    /** Never appended to: the list stays empty for the emitter's whole life. */
    const particles: seq<Particle>
    const x: array<real>
    const y: array<real>
    const dx: array<real>
    const dy: array<real>
    const ax: array<real>
    const ay: array<real>
    const lifespan: array<int>
    const colors: array<Rgb>

    /** Every array has one entry per slot, the six real arrays are six
        different arrays, and the particle list is empty. */
    ghost predicate Valid()
      reads this
    {
      particles == [] && x.Length == numParticles && y.Length == numParticles && dx.Length == numParticles
      && dy.Length == numParticles && ax.Length == numParticles && ay.Length == numParticles
      && lifespan.Length == numParticles && colors.Length == numParticles
      && x != y && x != dx && x != dy && x != ax && x != ay
      && y != dx && y != dy && y != ax && y != ay
      && dx != dy && dx != ax && dx != ay
      && dy != ax && dy != ay
      && ax != ay
    }

    /** Slot i read as a particle state. */
    ghost function Slot(i: int): Body
      requires Valid() && 0 <= i < numParticles
      reads this, x, y, dx, dy, ax, ay, lifespan
    {
      Body(x[i], y[i], dx[i], dy[i], ax[i], ay[i], Some(lifespan[i]))
    }

    ghost function Slots(): (s: seq<Body>)
      requires Valid()
      reads this, x, y, dx, dy, ax, ay, lifespan
      ensures |s| == numParticles
    {
      seq(numParticles, i requires 0 <= i < numParticles reads this, x, y, dx, dy, ax, ay, lifespan => Slot(i))
    }

    /** Every slot starts zeroed and black, and the particle list empty. */
    constructor (screenWidth: int, screenHeight: int, numParticles: nat)
      ensures Valid() && fresh(x) && fresh(y) && fresh(dx) && fresh(dy) && fresh(ax) && fresh(ay)
      ensures fresh(lifespan) && fresh(colors)
      ensures this.screenWidth == screenWidth && this.screenHeight == screenHeight
      ensures this.numParticles == numParticles && particles == []
      ensures forall i | 0 <= i < numParticles :: Slot(i) == Body(0.0, 0.0, 0.0, 0.0, 0.0, 0.0, Some(0)) && colors[i] == Black
    {
      this.screenWidth, this.screenHeight := screenWidth, screenHeight;
      this.numParticles := numParticles;
      particles := [];
      x := new real[numParticles](_ => 0.0);
      y := new real[numParticles](_ => 0.0);
      dx := new real[numParticles](_ => 0.0);
      dy := new real[numParticles](_ => 0.0);
      ax := new real[numParticles](_ => 0.0);
      ay := new real[numParticles](_ => 0.0);
      lifespan := new int[numParticles](_ => 0);
      colors := new Rgb[numParticles](_ => Black);
    }

    /** generate_particle(idx): slot idx is reset from the draw; every other
        slot is left as it was. */
    method GenerateParticle(idx: nat, d: Draw)
      requires Valid() && idx < numParticles
      modifies x, y, dx, dy, ax, ay, lifespan, colors
      ensures Valid()
      ensures Slot(idx) == Spawned(screenWidth, screenHeight, d) && colors[idx] == d.color
      ensures forall i | 0 <= i < numParticles && i != idx :: Slot(i) == old(Slot(i)) && colors[i] == old(colors[i])
    {
      x[idx] := (screenWidth / 2) as real;
      y[idx] := (screenHeight / 2) as real;
      dx[idx] := d.dx as real;
      dy[idx] := d.dy as real;
      ax[idx] := d.ax;
      ay[idx] := d.ay;
      lifespan[idx] := Lifespan;
      colors[idx] := d.color;
    }

    /** trigger(): every slot is regenerated, slot i from draws[i]. */
    method Trigger(draws: seq<Draw>)
      requires Valid() && |draws| >= numParticles
      modifies x, y, dx, dy, ax, ay, lifespan, colors
      ensures Valid()
      ensures forall i | 0 <= i < numParticles :: Slot(i) == Spawned(screenWidth, screenHeight, draws[i])
      ensures forall i | 0 <= i < numParticles :: colors[i] == draws[i].color
    {
      var i := 0;
      while i < numParticles
        invariant 0 <= i <= numParticles && Valid()
        invariant forall j | 0 <= j < i :: Slot(j) == Spawned(screenWidth, screenHeight, draws[j])
        invariant forall j | 0 <= j < i :: colors[j] == draws[j].color
      {
        GenerateParticle(i, draws[i]);
        i := i + 1;
      }
    }

    /** update(blocks): the whole-array motion, the mask taken before the
        lifespans drop, the drop, then the regeneration of every masked-out
        slot i from draws[i].  The blocks are not consulted. */
    method Update(draws: seq<Draw>)
      requires Valid() && |draws| >= numParticles
      modifies x, y, dx, dy, ax, ay, lifespan, colors
      ensures Valid()
      ensures forall i | 0 <= i < numParticles ::
        Slot(i) == Recycled(old(Slot(i)), screenWidth, screenHeight, draws[i])
      ensures forall i | 0 <= i < numParticles ::
        colors[i] == if Kept(Drifted(old(Slot(i))), screenWidth, screenHeight) then old(colors[i]) else draws[i].color
    {
      Drift();
      var mask := Mask();
      Decrement(lifespan);
      Regenerate(mask, draws);
    }

    /** The six whole-array operations of update. */
    method Drift()
      requires Valid()
      modifies x, y, dx, dy
      ensures Valid()
      ensures forall i | 0 <= i < numParticles :: Slot(i) == Drifted(old(Slot(i)))
    {
      AddInto(dx, ax);
      AddInto(dy, ay);
      Damp(dx);
      Damp(dy);
      AddInto(x, dx);
      AddInto(y, dy);
    }

    /** mask = (lifespan > 0) & (0 <= x <= width) & (0 <= y <= height). */
    method Mask() returns (mask: seq<bool>)
      requires Valid()
      ensures |mask| == numParticles
      ensures forall i | 0 <= i < numParticles :: mask[i] == Kept(Slot(i), screenWidth, screenHeight)
    {
      mask := [];
      var i := 0;
      while i < numParticles
        invariant 0 <= i <= numParticles && |mask| == i
        invariant forall j | 0 <= j < i :: mask[j] == Kept(Slot(j), screenWidth, screenHeight)
      {
        mask := mask + [lifespan[i] > 0 && x[i] >= 0.0 && x[i] <= screenWidth as real
                                        && y[i] >= 0.0 && y[i] <= screenHeight as real];
        i := i + 1;
      }
    }

    /** The regeneration loop: every slot whose mask entry is false is
        regenerated from its draw. */
    method Regenerate(mask: seq<bool>, draws: seq<Draw>)
      requires Valid() && |mask| == numParticles && |draws| >= numParticles
      modifies x, y, dx, dy, ax, ay, lifespan, colors
      ensures Valid()
      ensures forall i | 0 <= i < numParticles ::
        Slot(i) == if mask[i] then old(Slot(i)) else Spawned(screenWidth, screenHeight, draws[i])
      ensures forall i | 0 <= i < numParticles :: colors[i] == if mask[i] then old(colors[i]) else draws[i].color
    {
      var i := 0;
      while i < numParticles
        invariant 0 <= i <= numParticles && Valid()
        invariant forall j | 0 <= j < i ::
          Slot(j) == if mask[j] then old(Slot(j)) else Spawned(screenWidth, screenHeight, draws[j])
        invariant forall j | 0 <= j < i :: colors[j] == if mask[j] then old(colors[j]) else draws[j].color
        invariant forall j | i <= j < numParticles :: Slot(j) == old(Slot(j)) && colors[j] == old(colors[j])
      {
        if !mask[i] {
          GenerateParticle(i, draws[i]);
        }
        i := i + 1;
      }
    }
    /** The inner loop of the array BlockEmitter.update for one block: the
        first slot strictly inside it, if any, gets dy negated and dx shifted. */
    method KickFirstInside(block: Block, offset: real) returns (hit: bool)
      requires Valid()
      modifies dx, dy
      ensures Valid()
      ensures hit == (FirstInside(block, old(Slots()), Open) < numParticles)
      ensures Slots() == KickAt(old(Slots()), FirstInside(block, old(Slots()), Open), offset)
    {
      ghost var start := Slots();
      var i := 0;
      while i < numParticles && !Inside(block, x[i], y[i], Open)
        invariant 0 <= i <= numParticles
        invariant forall m | 0 <= m < i :: !Inside(block, start[m].x, start[m].y, Open)
      {
        i := i + 1;
      }
      FirstIs(block, start, Open, i);
      KickAtIs(start, i, offset);
      hit := i < numParticles;
      if hit {
        KickSlot(i, offset);
      }
    }

    /** particles.dy[i] *= -1; particles.dx[i] += offset. */
    method KickSlot(i: nat, offset: real)
      requires Valid() && i < numParticles
      modifies dx, dy
      ensures Valid()
      ensures Slots() == old(Slots())[i := Kicked(old(Slot(i)), 1, offset)]
    {
      ghost var start := Slots();
      dy[i] := -dy[i];
      dx[i] := dx[i] + offset;
      assert forall j | 0 <= j < numParticles :: Slots()[j] == start[i := Kicked(start[i], 1, offset)][j];
    }

    /** The block loop of the array BlockEmitter.update over a copy of the
        blocks: each block kicks the first slot inside it and is listed. */
    method Sweep(snapshot: seq<Block>, offsets: seq<real>) returns (toRemove: seq<Block>)
      requires Valid() && |offsets| >= |snapshot|
      modifies dx, dy
      ensures Valid()
      ensures toRemove == Hit(snapshot, old(Slots()), Open)
      ensures Slots() == AfterHits(snapshot, offsets, old(Slots()), Open)
    {
      ghost var start := Slots();
      toRemove := [];
      var k := 0;
      assert snapshot[..0] == [];
      while k < |snapshot|
        invariant 0 <= k <= |snapshot| && Valid()
        invariant toRemove == Hit(snapshot[..k], start, Open)
        invariant Slots() == AfterHits(snapshot[..k], offsets, start, Open)
      {
        ghost var before := Slots();
        var hit := KickFirstInside(snapshot[k], offsets[k]);
        HitsStep(snapshot, k, offsets, start, Open, before, Slots());
        HitPrefixStep(snapshot, k, start, Open);
        if hit {
          toRemove := toRemove + [snapshot[k]];
        }
        k := k + 1;
      }
      assert snapshot[..k] == snapshot;
    }
  }

  /** BlockEmitter.update(emitter) of brickPong.py: every block strictly
      containing a slot kicks the first such slot (dy negated, dx shifted by
      offsets[k]) and leaves the field; the clear time is recorded on first
      emptiness. */
  method UpdateBlocks(field: BlockEmitter, e: ArrayEmitter, offsets: seq<real>, now: real)
    requires field.Valid() && e.Valid() && |offsets| >= |field.blocks|
    modifies field, e.dx, e.dy
    ensures field.Valid() && e.Valid()
    ensures field.blocks == FilterOut(old(field.blocks), Hit(old(field.blocks), old(e.Slots()), Open))
    ensures |field.blocks| == |old(field.blocks)| - |Hit(old(field.blocks), old(e.Slots()), Open)|
    ensures e.Slots() == AfterHits(old(field.blocks), offsets, old(e.Slots()), Open)
    ensures field.lastDestroyedTime == if field.blocks == [] && old(field.lastDestroyedTime).None? then Some(now)
                                       else old(field.lastDestroyedTime)
  {
    ghost var start := e.Slots();
    var toRemove := e.Sweep(field.blocks, offsets);
    HitMembers(field.blocks, start, Open);
    field.RemoveAndMark(toRemove, now);
  }

  /** The block phase of brickPong.py's Game.run: destroyed_bricks grows by
      the size the field lost in the update, which is exactly the blocks some
      slot was inside. */
  method ArrayBlockPhase(tally: Tally, field: BlockEmitter, e: ArrayEmitter, offsets: seq<real>, now: real)
    requires field.Valid() && e.Valid() && |offsets| >= |field.blocks|
    modifies tally, field, e.dx, e.dy
    ensures field.Valid() && e.Valid() && tally.emitterTriggered == old(tally.emitterTriggered)
    ensures var hit := Hit(old(field.blocks), old(e.Slots()), Open);
      field.blocks == FilterOut(old(field.blocks), hit) &&
      tally.destroyedBricks == old(tally.destroyedBricks) + |hit|
    ensures e.Slots() == AfterHits(old(field.blocks), offsets, old(e.Slots()), Open)
    ensures field.lastDestroyedTime == if field.blocks == [] && old(field.lastDestroyedTime).None? then Some(now)
                                       else old(field.lastDestroyedTime)
  {
    var before := |field.blocks|;
    UpdateBlocks(field, e, offsets, now);
    tally.Count(before, |field.blocks|);
  }

  /** The end of a frame of brickPong.py's Game.run: a burst regenerates
      every slot, and because the emitter's particle list is always empty the
      burst flag is cleared in the same frame that sets it; a due respawn lays
      out 100 blocks of 40 by 20.  Whatever does not fire leaves its part of
      the state as it was. */
  method ArrayFrameEnd(tally: Tally, e: ArrayEmitter, field: BlockEmitter, draws: seq<Draw>, now: real, colors: seq<Rgb>)
    returns (fire: bool, respawned: bool)
    requires e.Valid() && field.Valid() && |draws| >= e.numParticles && |colors| >= 100
    modifies tally, e.x, e.y, e.dx, e.dy, e.ax, e.ay, e.lifespan, e.colors, field
    ensures e.Valid() && field.Valid()
    ensures fire == (old(tally.destroyedBricks) >= BurstThreshold && !old(tally.emitterTriggered))
    ensures tally.destroyedBricks == if fire then 0 else old(tally.destroyedBricks)
    ensures !tally.emitterTriggered
    ensures fire ==> forall i | 0 <= i < e.numParticles ::
      e.Slot(i) == Spawned(e.screenWidth, e.screenHeight, draws[i]) && e.colors[i] == draws[i].color
    ensures !fire ==> e.Slots() == old(e.Slots()) && e.colors[..] == old(e.colors[..])
    ensures respawned == RespawnDue(old(field.lastDestroyedTime), now)
    ensures respawned ==> (|field.blocks| == 100 && field.lastDestroyedTime == None &&
                           forall j | 0 <= j < 100 :: PlacedAt(field.blocks[j], j, field.blocksPerRow, 40, 20, colors[j]))
    ensures !respawned ==> field.blocks == old(field.blocks) && field.lastDestroyedTime == old(field.lastDestroyedTime)
  {
    fire := tally.Burst();
    if fire {
      e.Trigger(draws);
    }
    tally.Settle(|e.particles| == 0);
    respawned := Respawn(field, now, 100, 40, 20, colors);
  }
}
