/** The playing field around the emitters in the three Python brick-pong
    variants: the hand-steered moving bar, the bounce of a particle off the
    bar, and the per-frame bookkeeping of Game.run (destroyed-brick tally,
    emitter burst, block respawn ten seconds after the field was cleared). */
module Arena {
  import opened Basics
  import opened Kinematics
  import opened Blocks
  import opened Emitters

  /** The direction the hand controller last reported.  Only 'left' and
      'right' move the bar; None, 'none', 'up' and 'down' all leave it. */
  datatype Direction = Left | Right | Still

  /** MovingBar.update on the bar's x: a step of speed to the left or right,
      taken only when the bar stays on screen after it. */
  function Slide(x: int, d: Direction, speed: int, barWidth: int, screenWidth: int): (nx: int)
    ensures nx == x || (d == Left && nx == x - speed) || (d == Right && nx == x + speed)
    ensures 0 <= speed && 0 <= x && x + barWidth <= screenWidth ==> 0 <= nx && nx + barWidth <= screenWidth
  {
    match d
    case Left => if x - speed >= 0 then x - speed else x
    case Right => if x + barWidth + speed <= screenWidth then x + speed else x
    case Still => x
  }

  /** The bar's x after one update per reported direction, in order. */
  function Slides(x: int, ds: seq<Direction>, speed: int, barWidth: int, screenWidth: int): int
  {
    if ds == [] then x else Slide(Slides(x, ds[..|ds| - 1], speed, barWidth, screenWidth), ds[|ds| - 1], speed, barWidth, screenWidth)
  }

  /** A bar that starts on screen stays on screen whatever the hand does,
      and it never ends further than |ds| steps from where it started. */
  lemma {:induction false} BarStaysOnScreen(x: int, ds: seq<Direction>, speed: int, barWidth: int, screenWidth: int)
    requires 0 <= x && x + barWidth <= screenWidth && speed >= 0
    ensures 0 <= Slides(x, ds, speed, barWidth, screenWidth)
    ensures Slides(x, ds, speed, barWidth, screenWidth) + barWidth <= screenWidth
    ensures IntAbs(Slides(x, ds, speed, barWidth, screenWidth) - x) <= |ds| * speed
  {
    if ds != [] {
      BarStaysOnScreen(x, ds[..|ds| - 1], speed, barWidth, screenWidth);
      assert |ds| * speed == (|ds| - 1) * speed + speed;
    }
  }

  class MovingBar {
    const screenWidth: int
    const screenHeight: int
    const barWidth: int
    const barHeight: int
    const speed: int
    const y: int
    var x: int
    var direction: Direction

    /** The bar lies within the screen and moves forwards when asked. */
    ghost predicate OnScreen()
      reads this
    {
      0 <= speed && 0 <= x && x + barWidth <= screenWidth
    }

    /** The bar of brickPongForJetson.py and brickPong.py: 400 by 20, ten
        pixels above the bottom edge, centred, moving 20 per update. */
    constructor Wide(screenWidth: int, screenHeight: int)
      ensures this.screenWidth == screenWidth && this.screenHeight == screenHeight
      ensures barWidth == 400 && barHeight == 20 && speed == 20 && direction == Still
      ensures x == screenWidth / 2 - 200 && y == screenHeight - 30
      ensures screenWidth >= 400 ==> OnScreen()
    {
      this.screenWidth, this.screenHeight := screenWidth, screenHeight;
      barWidth, barHeight, speed := 400, 20, 20;
      x := screenWidth / 2 - 400 / 2;
      y := screenHeight - 20 - 10;
      direction := Still;
    }

    /** The bar of brickpongForJetson_v2.py: 6 by 1 on the row above the
        bottom one, centred, moving one cell per update; on the 20 x 20 field
        it starts at x = 7, y = 18. */
    constructor Narrow(screenWidth: int, screenHeight: int)
      ensures this.screenWidth == screenWidth && this.screenHeight == screenHeight
      ensures barWidth == 6 && barHeight == 1 && speed == 1 && direction == Still
      ensures x == screenWidth / 2 - 3 && y == screenHeight - 2
      ensures screenWidth >= 6 ==> OnScreen()
      ensures screenWidth == 20 && screenHeight == 20 ==> x == 7 && y == 18
    {
      this.screenWidth, this.screenHeight := screenWidth, screenHeight;
      barWidth, barHeight, speed := 6, 1, 1;
      x := screenWidth / 2 - 6 / 2;
      y := screenHeight - 1 - 1;
      direction := Still;
    }

    /** update_direction: the hand controller's report is stored. */
    method UpdateDirection(d: Direction)
      modifies this
      ensures direction == d && x == old(x)
    {
      direction := d;
    }

    /** update(): one step in the stored direction when it keeps the bar on
        screen; the bar never leaves the screen and moves by exactly speed or
        not at all. */
    method Update()
      modifies this
      ensures x == Slide(old(x), direction, speed, barWidth, screenWidth) && direction == old(direction)
      ensures old(OnScreen()) ==> OnScreen()
    {
      if direction == Left && x - speed >= 0 {
        x := x - speed;
      } else if direction == Right && x + barWidth + speed <= screenWidth {
        x := x + speed;
      }
    }
  }

  /** A particle caught by the bar: dy turned back and doubled, dx pushed by
      the random offset, and the particle lifted `lift` above the bar's top,
      where it is no longer on the bar. */
  function BarKicked(b: Body, left: int, top: int, width: int, height: int, c: Containment, lift: int, offset: real): (r: Body)
    ensures r.x == b.x && r.dy == -2.0 * b.dy && r.dx == b.dx + offset
    ensures lift > 0 ==> !InRect(left, top, width, height, r.x, r.y, c)
  {
    b.(dy := b.dy * -2.0, dx := b.dx + offset, y := (top - lift) as real)
  }

  /** The bar test of Game.run for one particle: when it is on the bar it is
      kicked back up. */
  method BarContact(p: Particle, bar: MovingBar, c: Containment, lift: int, offset: real) returns (hit: bool)
    modifies p
    ensures hit == InRect(bar.x, bar.y, bar.barWidth, bar.barHeight, old(p.x), old(p.y), c)
    ensures p.State() == if hit then BarKicked(old(p.State()), bar.x, bar.y, bar.barWidth, bar.barHeight, c, lift, offset)
                         else old(p.State())
  {
    hit := InRect(bar.x, bar.y, bar.barWidth, bar.barHeight, p.x, p.y, c);
    if hit {
      p.dy := p.dy * -2.0;
      p.dx := p.dx + offset;
      p.y := (bar.y - lift) as real;
    }
  }

  /** Destroyed bricks that set off one burst of the emitter. */
  const BurstThreshold: int := 20

  /** Seconds between clearing the field and the next wave of blocks. */
  const RespawnDelay: real := 10.0

  /** `if block_emitter.last_destroyed_time and time.time() - t >= 10`: a
      recorded time of 0.0 is false in Python and never triggers a respawn. */
  predicate RespawnDue(t: Option<real>, now: real)
  {
    t.Some? && t.value != 0.0 && now - t.value >= RespawnDelay
  }

  /** The two counters Game.run keeps across frames. */
  class Tally {
    var destroyedBricks: int
    var emitterTriggered: bool

    constructor ()
      ensures destroyedBricks == 0 && !emitterTriggered
    {
      destroyedBricks, emitterTriggered := 0, false;
    }

    /** destroyed_bricks += before - after, the field's size around the block updates. */
    method Count(before: int, after: int)
      modifies this
      ensures destroyedBricks == old(destroyedBricks) + before - after
      ensures emitterTriggered == old(emitterTriggered)
    {
      destroyedBricks := destroyedBricks + before - after;
    }

    /** The burst test: twenty or more destroyed bricks while no burst is
        running start one and restart the count.  Afterwards fewer than
        twenty bricks are pending or a burst is running. */
    method Burst() returns (fire: bool)
      modifies this
      ensures fire == (old(destroyedBricks) >= BurstThreshold && !old(emitterTriggered))
      ensures fire ==> destroyedBricks == 0 && emitterTriggered
      ensures !fire ==> destroyedBricks == old(destroyedBricks) && emitterTriggered == old(emitterTriggered)
      ensures destroyedBricks < BurstThreshold || emitterTriggered
    {
      fire := destroyedBricks >= BurstThreshold && !emitterTriggered;
      if fire {
        destroyedBricks := 0;
        emitterTriggered := true;
      }
    }

    /** A burst ends once the emitter has no particle left. */
    method Settle(emitterEmpty: bool)
      modifies this
      ensures emitterTriggered == (old(emitterTriggered) && !emitterEmpty)
      ensures destroyedBricks == old(destroyedBricks)
    {
      if emitterTriggered && emitterEmpty {
        emitterTriggered := false;
      }
    }
  }

  /** Block respawn, common to the three games: when due, numBlocks new
      blocks are laid out and the clear time forgotten.  A respawn only ever
      happens on an empty field, so the field then holds exactly numBlocks. */
  method Respawn(field: BlockEmitter, now: real, numBlocks: nat, blockWidth: int, blockHeight: int, colors: seq<Rgb>)
    returns (respawned: bool)
    requires field.Valid() && |colors| >= numBlocks
    modifies field
    ensures field.Valid()
    ensures respawned == RespawnDue(old(field.lastDestroyedTime), now)
    ensures respawned ==> |field.blocks| == numBlocks && field.lastDestroyedTime == None
    ensures respawned ==> forall j | 0 <= j < numBlocks ::
      PlacedAt(field.blocks[j], j, field.blocksPerRow, blockWidth, blockHeight, colors[j])
    ensures !respawned ==> field.blocks == old(field.blocks) && field.lastDestroyedTime == old(field.lastDestroyedTime)
  {
    respawned := RespawnDue(field.lastDestroyedTime, now);
    if respawned {
      field.Trigger(numBlocks, blockWidth, blockHeight, colors);
      field.lastDestroyedTime := None;
    }
  }

  /** block_emitter.update([p]) for a single particle: the field loses the
      block the particle hit, if any, and the particle is turned back by it. */
  method UpdateAgainst(field: BlockEmitter, main: Particle, c: Containment, offsets: seq<real>, now: real)
    requires field.Valid() && |offsets| >= |field.blocks|
    modifies field, main
    ensures field.Valid()
    ensures field.blocks == FilterOut(old(field.blocks), Hit(old(field.blocks), [old(main.State())], c))
    ensures |field.blocks| == |old(field.blocks)| - |Hit(old(field.blocks), [old(main.State())], c)|
    ensures [main.State()] == AfterHits(old(field.blocks), offsets, [old(main.State())], c)
    ensures field.lastDestroyedTime == if field.blocks == [] && old(field.lastDestroyedTime).None? then Some(now)
                                       else old(field.lastDestroyedTime)
  {
    assert States([main]) == [main.State()];
    field.Update([main], c, offsets, now);
    assert States([main]) == [main.State()];
  }

  /** The two block updates of brickPongForJetson.py's Game.run: the field
      is updated against the particle list, then against the main particle
      alone. */
  method UpdateTwice(field: BlockEmitter, particles: seq<Particle>, main: Particle, c: Containment,
                     offsets: seq<real>, mainOffsets: seq<real>, now: real)
    requires field.Valid() && Distinct(particles) && main !in particles
    requires |offsets| >= |field.blocks| && |mainOffsets| >= |field.blocks|
    modifies field, particles, main
    ensures field.Valid()
    ensures var hit := Hit(old(field.blocks), old(States(particles)), c);
      var mainHit := Hit(FilterOut(old(field.blocks), hit), [old(main.State())], c);
      field.blocks == FilterOut(FilterOut(old(field.blocks), hit), mainHit) &&
      |field.blocks| == |old(field.blocks)| - |hit| - |mainHit|
    ensures States(particles) == AfterHits(old(field.blocks), offsets, old(States(particles)), c)
    ensures [main.State()] == AfterHits(FilterOut(old(field.blocks), Hit(old(field.blocks), old(States(particles)), c)),
                                        mainOffsets, [old(main.State())], c)
    ensures field.lastDestroyedTime == if field.blocks == [] && old(field.lastDestroyedTime).None? then Some(now)
                                       else old(field.lastDestroyedTime)
  {
    ghost var m0 := main.State();
    field.Update(particles, c, offsets, now);
    ghost var s1 := States(particles);
    assert main.State() == m0;
    UpdateAgainst(field, main, c, mainOffsets, now);
    assert States(particles) == s1;
  }

  /** The block phase of brickPongForJetson.py's Game.run: destroyed_bricks
      grows by the size the field lost over the two updates, which is exactly
      the blocks they hit. */
  method ListBlockPhase(tally: Tally, field: BlockEmitter, particles: seq<Particle>, main: Particle, c: Containment,
                        offsets: seq<real>, mainOffsets: seq<real>, now: real)
    requires field.Valid() && Distinct(particles) && main !in particles
    requires |offsets| >= |field.blocks| && |mainOffsets| >= |field.blocks|
    modifies tally, field, particles, main
    ensures field.Valid() && tally.emitterTriggered == old(tally.emitterTriggered)
    ensures var hit := Hit(old(field.blocks), old(States(particles)), c);
      var mainHit := Hit(FilterOut(old(field.blocks), hit), [old(main.State())], c);
      field.blocks == FilterOut(FilterOut(old(field.blocks), hit), mainHit) &&
      tally.destroyedBricks == old(tally.destroyedBricks) + |hit| + |mainHit|
    ensures States(particles) == AfterHits(old(field.blocks), offsets, old(States(particles)), c)
    ensures [main.State()] == AfterHits(FilterOut(old(field.blocks), Hit(old(field.blocks), old(States(particles)), c)),
                                        mainOffsets, [old(main.State())], c)
    ensures field.lastDestroyedTime == if field.blocks == [] && old(field.lastDestroyedTime).None? then Some(now)
                                       else old(field.lastDestroyedTime)
  {
    var before := |field.blocks|;
    UpdateTwice(field, particles, main, c, offsets, mainOffsets, now);
    tally.Count(before, |field.blocks|);
  }

  /** The block phase of brickpongForJetson_v2.py's Game.run: one update
      against the main particle, and destroyed_bricks grows by the blocks it
      hit. */
  method SlotBlockPhase(tally: Tally, field: BlockEmitter, main: Particle, offsets: seq<real>, now: real)
    requires field.Valid() && |offsets| >= |field.blocks|
    modifies tally, field, main
    ensures field.Valid() && tally.emitterTriggered == old(tally.emitterTriggered)
    ensures var hit := Hit(old(field.blocks), [old(main.State())], HalfOpenCell);
      field.blocks == FilterOut(old(field.blocks), hit) &&
      tally.destroyedBricks == old(tally.destroyedBricks) + |hit|
    ensures [main.State()] == AfterHits(old(field.blocks), offsets, [old(main.State())], HalfOpenCell)
    ensures field.lastDestroyedTime == if field.blocks == [] && old(field.lastDestroyedTime).None? then Some(now)
                                       else old(field.lastDestroyedTime)
  {
    var before := |field.blocks|;
    UpdateAgainst(field, main, HalfOpenCell, offsets, now);
    tally.Count(before, |field.blocks|);
  }

  /** The end of a frame of brickPongForJetson.py's Game.run, after the
      emitter's update: a burst tops the list emitter up, the burst ends when
      the list is empty, and a due respawn lays out 100 blocks of 40 by 20.
      Whatever does not fire leaves its part of the state as it was. */
  method ListFrameEnd(tally: Tally, emitter: ParticleEmitter, field: BlockEmitter, velocities: seq<(real, real)>,
                      now: real, colors: seq<Rgb>)
    returns (fire: bool, respawned: bool)
    requires emitter.Valid() && field.Valid()
    requires |emitter.particles| + |velocities| >= emitter.numParticles && |colors| >= 100
    modifies tally, emitter, field
    ensures emitter.Valid() && field.Valid()
    ensures fire == (old(tally.destroyedBricks) >= BurstThreshold && !old(tally.emitterTriggered))
    ensures tally.destroyedBricks == if fire then 0 else old(tally.destroyedBricks)
    ensures !fire ==> emitter.particles == old(emitter.particles)
    ensures fire ==> (|emitter.particles| == (if old(|emitter.particles|) < emitter.numParticles then emitter.numParticles
                                              else old(|emitter.particles|)) &&
                      emitter.particles[..old(|emitter.particles|)] == old(emitter.particles))
    ensures fire ==> forall j | old(|emitter.particles|) <= j < |emitter.particles| ::
      emitter.particles[j].State() == Body((emitter.screenWidth / 2) as real, (emitter.screenHeight / 2) as real,
                                           velocities[j - old(|emitter.particles|)].0,
                                           velocities[j - old(|emitter.particles|)].1, 0.0, 0.0, Some(Lifespan))
    ensures tally.emitterTriggered == ((old(tally.emitterTriggered) || fire) && |emitter.particles| != 0)
    ensures respawned == RespawnDue(old(field.lastDestroyedTime), now)
    ensures respawned ==> (|field.blocks| == 100 && field.lastDestroyedTime == None &&
                           forall j | 0 <= j < 100 :: PlacedAt(field.blocks[j], j, field.blocksPerRow, 40, 20, colors[j]))
    ensures !respawned ==> field.blocks == old(field.blocks) && field.lastDestroyedTime == old(field.lastDestroyedTime)
  {
    fire := tally.Burst();
    if fire {
      emitter.Trigger(velocities);
    }
    tally.Settle(|emitter.particles| == 0);
    respawned := Respawn(field, now, 100, 40, 20, colors);
  }

  /** The end of a frame of brickpongForJetson_v2.py's Game.run: a burst fills
      the empty slot, the burst ends when the slot is empty again, and a due
      respawn lays out 40 white one-cell blocks.  Whatever does not fire
      leaves its part of the state as it was. */
  method SlotFrameEnd(tally: Tally, emitter: SlotEmitter, field: BlockEmitter, dx: real, dy: real, now: real)
    returns (fire: bool, respawned: bool)
    requires emitter.Valid() && field.Valid()
    modifies tally, emitter, field
    ensures emitter.Valid() && field.Valid()
    ensures fire == (old(tally.destroyedBricks) >= BurstThreshold && !old(tally.emitterTriggered))
    ensures tally.destroyedBricks == if fire then 0 else old(tally.destroyedBricks)
    ensures !fire || old(emitter.particle) != null ==> emitter.particle == old(emitter.particle)
    ensures fire && old(emitter.particle) == null ==>
      (fresh(emitter.particle) && emitter.particle.color == Rgb(0, 255, 0) &&
       emitter.particle.State() == Body((emitter.screenWidth / 2) as real, (emitter.screenHeight / 2) as real,
                                        dx, dy, 0.0, 0.0, Some(Lifespan)))
    ensures tally.emitterTriggered == ((old(tally.emitterTriggered) || fire) && emitter.particle != null)
    ensures respawned == RespawnDue(old(field.lastDestroyedTime), now)
    ensures respawned ==> (|field.blocks| == 40 && field.lastDestroyedTime == None &&
                           forall j | 0 <= j < 40 :: PlacedAt(field.blocks[j], j, field.blocksPerRow, 1, 1, White))
    ensures !respawned ==> field.blocks == old(field.blocks) && field.lastDestroyedTime == old(field.lastDestroyedTime)
  {
    fire := tally.Burst();
    if fire {
      emitter.Trigger(dx, dy);
    }
    tally.Settle(emitter.particle == null);
    respawned := Respawn(field, now, 40, 1, 1, seq(40, _ => White));
  }
}
