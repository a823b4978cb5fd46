/** The particle emitters of the list-based brick-pong variants: the list
    emitter of brickPongForJetson.py (top-up spawning, batched removal of
    particles and struck blocks) and the single-slot emitter of
    brickpongForJetson_v2.py. */
module Emitters {
  import opened Basics
  import opened Kinematics
  import opened Blocks

  /** Lifespan of every emitted particle, in moves. */
  const Lifespan: int := 300

  /** check_collision: math.sqrt(d2) < reach, compared as d2 < reach² (reach >= 0). */
  predicate Near(p: Body, m: Body, reachSquared: real)
  {
    (p.x - m.x) * (p.x - m.x) + (p.y - m.y) * (p.y - m.y) < reachSquared
  }

  /** Both velocity components negated. */
  function Reversed(b: Body): Body
  {
    b.(dx := -b.dx, dy := -b.dy)
  }

  /** The index of the first block of bs containing the point, |bs| when none does:
      the block loop of ParticleEmitter.update stops there. */
  function FirstContaining(bs: seq<Block>, px: real, py: real, c: Containment): (k: nat)
    ensures k <= |bs|
    ensures k < |bs| ==> Inside(bs[k], px, py, c)
    ensures forall i | 0 <= i < k :: !Inside(bs[i], px, py, c)
  {
    if bs == [] then 0
    else if Inside(bs[0], px, py, c) then 0
    else 1 + FirstContaining(bs[1..], px, py, c)
  }

  /** The rules one emitter variant applies. */
  datatype Rules = Rules(width: int, height: int, edge: EdgeRule, cell: Containment, reachSquared: real)

  /** The list emitter of brickPongForJetson.py: closed field, open blocks, collision distance 12. */
  function ListRules(width: int, height: int): Rules
  {
    Rules(width, height, Closed, Open, 144.0)
  }

  /** The slot emitter of brickpongForJetson_v2.py: half-open field and blocks, collision distance 1. */
  function SlotRules(width: int, height: int): Rules
  {
    Rules(width, height, HalfOpen, HalfOpenCell, 1.0)
  }

  /** One particle's turn in update: move, turn back off the main particle,
      then turn back off the first block it is inside. */
  function Advanced(b: Body, m: Body, bs: seq<Block>, r: Rules): Body
  {
    var moved := Moved(b, r.width as real, r.height as real, r.edge);
    var bounced := if Near(moved, m, r.reachSquared) then Reversed(moved) else moved;
    if FirstContaining(bs, bounced.x, bounced.y, r.cell) < |bs| then Reversed(bounced) else bounced
  }

  function AdvancedAll(qs: seq<Body>, m: Body, bs: seq<Block>, r: Rules): (out: seq<Body>)
    ensures |out| == |qs|
  {
    seq(|qs|, j requires 0 <= j < |qs| => Advanced(qs[j], m, bs, r))
  }

  /** Is a particle in state b to be removed: outside the field or out of lifespan? */
  predicate Gone(b: Body, r: Rules)
  {
    !InField(b, r.width as real, r.height as real, r.edge) || (b.lifespan.Some? && b.lifespan.value <= 0)
  }

  /** The block a particle in state q strikes, if any: the first block containing it. */
  function StruckBy(bs: seq<Block>, q: Body, c: Containment): (r: seq<Block>)
    ensures |r| <= 1
    ensures r == [] <==> forall b | b in bs :: !Inside(b, q.x, q.y, c)
    ensures forall b | b in r :: b in bs && Inside(b, q.x, q.y, c)
  {
    var k := FirstContaining(bs, q.x, q.y, c);
    if k < |bs| then [bs[k]] else []
  }

  /** blocks_to_remove after the particles have taken their turns: for each
      particle, in order, the first block it is inside. */
  function Struck(bs: seq<Block>, qs: seq<Body>, c: Containment): (r: seq<Block>)
    ensures |r| <= |qs|
  {
    if qs == [] then []
    else Struck(bs, qs[..|qs| - 1], c) + StruckBy(bs, qs[|qs| - 1], c)
  }

  /** Every block listed for removal is a block of the field that some
      particle is inside. */
  lemma {:induction false} StruckAreHit(bs: seq<Block>, qs: seq<Body>, c: Containment)
    ensures forall b | b in Struck(bs, qs, c) :: b in bs && exists q | q in qs :: Inside(b, q.x, q.y, c)
  {
    if qs != [] {
      var init := qs[..|qs| - 1];
      StruckAreHit(bs, init, c);
      assert forall q | q in init :: q in qs;
    }
  }

  /** The entries one particle adds to particles_to_remove: itself once for
      leaving the field and once more for running out of lifespan. */
  function GoneFor(p: Particle, q: Body, r: Rules): (out: seq<Particle>)
    ensures out == [] <==> !Gone(q, r)
    ensures forall x | x in out :: x == p
  {
    (if !InField(q, r.width as real, r.height as real, r.edge) then [p] else [])
    + (if q.lifespan.Some? && q.lifespan.value <= 0 then [p] else [])
  }

  /** particles_to_remove: each particle once per removal condition it meets. */
  function GoneList(ps: seq<Particle>, qs: seq<Body>, r: Rules): seq<Particle>
    requires |ps| == |qs|
  {
    if ps == [] then []
    else GoneList(ps[..|ps| - 1], qs[..|qs| - 1], r) + GoneFor(ps[|ps| - 1], qs[|qs| - 1], r)
  }

  /** The particles that stay: ps[i] is kept exactly when its new state qs[i] is not Gone. */
  function Survivors(ps: seq<Particle>, qs: seq<Body>, r: Rules): (out: seq<Particle>)
    requires |ps| == |qs|
    ensures |out| <= |ps|
    ensures forall p | p in out :: p in ps
  {
    if ps == [] then []
    else
      Survivors(ps[..|ps| - 1], qs[..|qs| - 1], r) + (if Gone(qs[|qs| - 1], r) then [] else [ps[|ps| - 1]])
  }

  /** Removing particles_to_remove from a list without repeats keeps exactly the survivors. */
  lemma {:induction false} RemovingGoneKeepsSurvivors(ps: seq<Particle>, qs: seq<Body>, r: Rules)
    requires |ps| == |qs| && Distinct(ps)
    ensures FilterOut(ps, GoneList(ps, qs, r)) == Survivors(ps, qs, r)
    ensures forall p | p in GoneList(ps, qs, r) :: p in ps
  {
    if ps != [] {
      var init, last := ps[..|ps| - 1], ps[|ps| - 1];
      var qinit, q := qs[..|qs| - 1], qs[|qs| - 1];
      assert ps == init + [last];
      assert Distinct(init) && last !in init;
      RemovingGoneKeepsSurvivors(init, qinit, r);
      var before := GoneList(init, qinit, r);
      var extra := GoneFor(last, q, r);
      assert GoneList(ps, qs, r) == before + extra;
      FilterOutAbsent(init, before, extra);
      FilterOutSnoc(init, last, before + extra);
      assert last in before + extra <==> Gone(q, r);
    }
  }

  /** One particle's turn of update, on the object: returns the index of the
      block it struck (|blocks| when none). */
  method Advance(p: Particle, m: Body, blocks: seq<Block>, r: Rules) returns (k: nat)
    modifies p
    ensures p.State() == Advanced(old(p.State()), m, blocks, r)
    ensures k == FirstContaining(blocks, p.x, p.y, r.cell)
  {
    p.Move(r.width as real, r.height as real, r.edge);
    if Near(p.State(), m, r.reachSquared) {
      p.dx := -p.dx;
      p.dy := -p.dy;
    }
    k := 0;
    while k < |blocks| && !Inside(blocks[k], p.x, p.y, r.cell)
      invariant 0 <= k <= |blocks|
      invariant forall i | 0 <= i < k :: !Inside(blocks[i], p.x, p.y, r.cell)
    {
      k := k + 1;
    }
    FirstContainingIs(blocks, p.x, p.y, r.cell, k);
    if k < |blocks| {
      p.dx := -p.dx;
      p.dy := -p.dy;
    }
  }

  lemma FirstContainingIs(bs: seq<Block>, px: real, py: real, c: Containment, k: nat)
    requires k <= |bs| && (k < |bs| ==> Inside(bs[k], px, py, c))
    requires forall i | 0 <= i < k :: !Inside(bs[i], px, py, c)
    ensures FirstContaining(bs, px, py, c) == k
  {
  }

  /** The particle generator of brickPongForJetson.py: a white particle at the
      screen centre with lifespan 300; the random speed and direction arrive
      as the velocity (dx, dy). */
  method GenerateParticle(width: int, height: int, dx: real, dy: real, color: Rgb) returns (p: Particle)
    ensures fresh(p)
    ensures p.State() == Body((width / 2) as real, (height / 2) as real, dx, dy, 0.0, 0.0, Some(Lifespan))
    ensures p.color == color
  {
    p := new Particle((width / 2) as real, (height / 2) as real, dx, dy, color, Some(Lifespan));
  }

  class ParticleEmitter {
    const screenWidth: int
    const screenHeight: int
    const numParticles: int
    var particles: seq<Particle>
    const main: Particle

    /** The listed particles are distinct objects and none is the main particle. */
    ghost predicate Valid()
      reads this
    {
      Distinct(particles) && main !in particles
    }

    constructor (screenWidth: int, screenHeight: int, numParticles: int, main: Particle)
      ensures Valid()
      ensures this.screenWidth == screenWidth && this.screenHeight == screenHeight
      ensures this.numParticles == numParticles && this.main == main && particles == []
    {
      this.screenWidth, this.screenHeight := screenWidth, screenHeight;
      this.numParticles := numParticles;
      this.main := main;
      particles := [];
    }

    /** trigger(): tops the list up to exactly num_particles new particles at the
        centre; a full list is left as it is.  velocities[i] is the velocity of
        the i-th new particle. */
    method Trigger(velocities: seq<(real, real)>)
      requires Valid() && |particles| + |velocities| >= numParticles
      modifies this
      ensures Valid()
      ensures old(|particles|) >= numParticles ==> particles == old(particles)
      ensures old(|particles|) < numParticles ==> |particles| == numParticles
      ensures particles[..old(|particles|)] == old(particles)
      ensures forall j | old(|particles|) <= j < |particles| :: fresh(particles[j])
      ensures forall j | old(|particles|) <= j < |particles| ::
        particles[j].State() == Body((screenWidth / 2) as real, (screenHeight / 2) as real,
                                     velocities[j - old(|particles|)].0, velocities[j - old(|particles|)].1,
                                     0.0, 0.0, Some(Lifespan))
    {
      if |particles| < numParticles {
        ghost var n0 := |particles|;
        var count := numParticles - |particles|;
        var i := 0;
        while i < count
          invariant 0 <= i <= count && |particles| == n0 + i
          invariant particles[..n0] == old(particles)
          invariant Valid()
          invariant forall j | n0 <= j < |particles| :: fresh(particles[j])
          invariant forall j | n0 <= j < |particles| ::
            particles[j].State() == Body((screenWidth / 2) as real, (screenHeight / 2) as real,
                                         velocities[j - n0].0, velocities[j - n0].1, 0.0, 0.0, Some(Lifespan))
        {
          var p := GenerateParticle(screenWidth, screenHeight, velocities[i].0, velocities[i].1, White);
          particles := particles + [p];
          i := i + 1;
        }
      }
    }

    /** The states the listed particles reach when each takes its turn
        against these blocks. */
    ghost function TurnsTaken(blocks: seq<Block>): (qs: seq<Body>)
      reads this, particles, main
      ensures |qs| == |particles|
    {
      AdvancedAll(States(particles), main.State(), blocks, ListRules(screenWidth, screenHeight))
    }

    /** update(blocks): every particle takes its turn (move, main-particle
        collision, first block it is inside); the struck blocks are then
        removed from the field (if still there) and so are the particles that
        left the closed field or ran out of lifespan. */
    method Update(field: BlockEmitter)
      requires Valid() && field.Valid()
      modifies this, particles, field
      ensures Valid() && field.Valid()
      ensures States(old(particles)) == old(TurnsTaken(field.blocks))
      ensures field.blocks == FilterOut(old(field.blocks), Struck(old(field.blocks), old(TurnsTaken(field.blocks)), Open))
      ensures field.lastDestroyedTime == old(field.lastDestroyedTime)
      ensures particles == Survivors(old(particles), old(TurnsTaken(field.blocks)), ListRules(screenWidth, screenHeight))
    {
      var blocks := field.blocks;
      ghost var next := TurnsTaken(blocks);
      assert forall j | 0 <= j < |particles| :: particles[j] as object != this && particles[j] as object != field;
      var blocksToRemove, particlesToRemove := TakeTurns(blocks);
      Finish(field, blocksToRemove, particlesToRemove, next);
    }

    /** The end of update: the struck blocks leave the field and the particles
        to remove leave the list; the particles' states are left as they are. */
    method Finish(field: BlockEmitter, blocksToRemove: seq<Block>, particlesToRemove: seq<Particle>, ghost qs: seq<Body>)
      requires Valid() && field.Valid() && |qs| == |particles|
      requires particlesToRemove == GoneList(particles, qs, ListRules(screenWidth, screenHeight))
      requires forall j | 0 <= j < |particles| :: particles[j] as object != field
      modifies this, field
      ensures Valid() && field.Valid()
      ensures States(old(particles)) == old(States(particles))
      ensures field.blocks == FilterOut(old(field.blocks), blocksToRemove)
      ensures field.lastDestroyedTime == old(field.lastDestroyedTime)
      ensures particles == Survivors(old(particles), qs, ListRules(screenWidth, screenHeight))
    {
      ghost var ps := particles;
      field.Discard(blocksToRemove);
      DropParticles(particlesToRemove, qs);
    }

    /** The removal of particles_to_remove at the end of update: the particles
        whose new state is Gone leave the list, the others stay in order. */
    method DropParticles(particlesToRemove: seq<Particle>, ghost qs: seq<Body>)
      requires Valid() && |qs| == |particles|
      requires particlesToRemove == GoneList(particles, qs, ListRules(screenWidth, screenHeight))
      modifies this
      ensures Valid()
      ensures particles == Survivors(old(particles), qs, ListRules(screenWidth, screenHeight))
    {
      RemovingGoneKeepsSurvivors(particles, qs, ListRules(screenWidth, screenHeight));
      particles := RemoveEach(particles, particlesToRemove);
    }

    /** The particle loop of update: each particle takes its turn; the struck
        blocks and the particles to remove are listed, nothing is removed yet. */
    method TakeTurns(blocks: seq<Block>) returns (blocksToRemove: seq<Block>, particlesToRemove: seq<Particle>)
      requires Valid()
      modifies particles
      ensures States(particles) == old(TurnsTaken(blocks))
      ensures blocksToRemove == Struck(blocks, old(TurnsTaken(blocks)), Open)
      ensures particlesToRemove == GoneList(particles, old(TurnsTaken(blocks)), ListRules(screenWidth, screenHeight))
    {
      var ps := particles;
      assert main !in ps;
      var m := main.State();
      ghost var s0 := States(ps);
      assert forall j | 0 <= j < |ps| :: ps[j] as object != this;
      blocksToRemove, particlesToRemove := TurnsOf(ps, m, blocks, ListRules(screenWidth, screenHeight));
    }
  }

  /** Every particle of ps, in order, takes its turn; returns the blocks struck
      and the particles to remove. */
  method TurnsOf(ps: seq<Particle>, m: Body, blocks: seq<Block>, r: Rules)
    returns (blocksToRemove: seq<Block>, particlesToRemove: seq<Particle>)
    requires Distinct(ps) && r.edge == Closed
    modifies ps
    ensures States(ps) == AdvancedAll(old(States(ps)), m, blocks, r)
    ensures blocksToRemove == Struck(blocks, States(ps), r.cell)
    ensures particlesToRemove == GoneList(ps, States(ps), r)
  {
    ghost var start := States(ps);
    blocksToRemove, particlesToRemove := [], [];
    ghost var done: seq<Body> := [];
    var i := 0;
    assert ps[..0] == [] && start[0..] == start;
    while i < |ps|
      invariant 0 <= i <= |ps| == |start| && |done| == i
      invariant done == AdvancedAll(start[..i], m, blocks, r)
      invariant States(ps) == done + start[i..]
      invariant blocksToRemove == Struck(blocks, done, r.cell)
      invariant particlesToRemove == GoneList(ps[..i], done, r)
    {
      ghost var before := States(ps);
      blocksToRemove, particlesToRemove := Turn(ps, i, m, blocks, r, blocksToRemove, particlesToRemove);
      ghost var q := ps[i].State();
      TurnTaken(ps, start, done, q, m, blocks, r, i);
      StruckSnoc(blocks, done, q, r.cell);
      GoneListSnoc(ps[..i], done, ps[i], q, r);
      done := done + [q];
      i := i + 1;
    }
    WholePrefix(ps, i);
    WholePrefix(start, i);
  }

  lemma WholePrefix<T>(s: seq<T>, i: int)
    requires i == |s|
    ensures s[..i] == s
  {
  }

  /** The bookkeeping of one turn of TurnsOf: the advanced prefix grows by
      the new state q of the i-th particle. */
  lemma TurnTaken(ps: seq<Particle>, start: seq<Body>, done: seq<Body>, q: Body, m: Body, bs: seq<Block>, r: Rules, i: nat)
    requires i < |ps| == |start| && |done| == i
    requires done == AdvancedAll(start[..i], m, bs, r)
    requires q == Advanced(start[i], m, bs, r)
    ensures (done + start[i..])[i := q] == (done + [q]) + start[i + 1..]
    ensures done + [q] == AdvancedAll(start[..i + 1], m, bs, r)
    ensures ps[..i + 1] == ps[..i] + [ps[i]]
  {
    var longer := AdvancedAll(start[..i + 1], m, bs, r);
    forall j | 0 <= j <= i ensures (done + [q])[j] == longer[j] {
      if j < i {
        assert done[j] == Advanced(start[..i][j], m, bs, r);
      }
    }
  }

  lemma StruckSnoc(bs: seq<Block>, qs: seq<Body>, q: Body, c: Containment)
    ensures Struck(bs, qs + [q], c) == Struck(bs, qs, c) + StruckBy(bs, q, c)
  {
    assert (qs + [q])[..|qs|] == qs;
  }

  lemma GoneListSnoc(ps: seq<Particle>, qs: seq<Body>, p: Particle, q: Body, r: Rules)
    requires |ps| == |qs|
    ensures GoneList(ps + [p], qs + [q], r) == GoneList(ps, qs, r) + GoneFor(p, q, r)
  {
    assert (ps + [p])[..|ps|] == ps;
    assert (qs + [q])[..|qs|] == qs;
  }

  /** The body of update's particle loop: the i-th particle's turn, appending
      to the two removal lists what the turn finds. */
  method Turn(ps: seq<Particle>, i: nat, m: Body, blocks: seq<Block>, r: Rules,
              blocksToRemove: seq<Block>, particlesToRemove: seq<Particle>)
    returns (blocksAfter: seq<Block>, particlesAfter: seq<Particle>)
    requires i < |ps| && Distinct(ps) && r.edge == Closed
    modifies ps[i]
    ensures States(ps) == old(States(ps))[i := Advanced(old(ps[i].State()), m, blocks, r)]
    ensures blocksAfter == blocksToRemove + StruckBy(blocks, ps[i].State(), r.cell)
    ensures particlesAfter == particlesToRemove + GoneFor(ps[i], ps[i].State(), r)
  {
    var p := ps[i];
    var k := Advance(p, m, blocks, r);
    assert forall j | 0 <= j < |ps| && j != i :: ps[j] != p;
    blocksAfter, particlesAfter := blocksToRemove, particlesToRemove;
    if k < |blocks| {
      blocksAfter := blocksAfter + [blocks[k]];
    }
    if p.x < 0.0 || p.y < 0.0 || p.x > r.width as real || p.y > r.height as real {
      particlesAfter := particlesAfter + [p];
    }
    if p.lifespan.Some? && p.lifespan.value <= 0 {
      particlesAfter := particlesAfter + [p];
    }
  }

  /** The emitter's single particle strikes at most one block per update, so
      the field loses at most one block, and only one the particle is inside. */
  lemma AtMostOneBlockPerTick(bs: seq<Block>, q: Body, c: Containment)
    requires Distinct(bs)
    ensures |FilterOut(bs, StruckBy(bs, q, c))| >= |bs| - 1
    ensures forall b | b in bs && b !in FilterOut(bs, StruckBy(bs, q, c)) :: Inside(b, q.x, q.y, c)
  {
    FilterOutDropsAtMost(bs, StruckBy(bs, q, c));
    FilterOutMembers(bs, StruckBy(bs, q, c));
  }

  /** The single-slot emitter of brickpongForJetson_v2.py: at most one particle
      at a time, half-open field and blocks. */
  class SlotEmitter {
    const screenWidth: int
    const screenHeight: int
    const main: Particle
    var particle: Particle?

    /** The particle, when there is one, is not the main particle and carries
        a lifespan (generate_particle always gives one). */
    ghost predicate Valid()
      reads this, particle
    {
      particle != null ==> particle != main && particle.lifespan.Some?
    }

    constructor (screenWidth: int, screenHeight: int, main: Particle)
      ensures Valid()
      ensures this.screenWidth == screenWidth && this.screenHeight == screenHeight
      ensures this.main == main && particle == null
    {
      this.screenWidth, this.screenHeight := screenWidth, screenHeight;
      this.main := main;
      particle := null;
    }

    /** trigger(): a new green particle at the centre with lifespan 300 when the
        slot is empty; an occupied slot is left as it is, so a second trigger
        changes nothing.  (dx, dy) is the velocity from the random speed and
        direction. */
    method Trigger(dx: real, dy: real)
      requires Valid()
      modifies this
      ensures Valid() && particle != null
      ensures old(particle) != null ==> particle == old(particle)
      ensures old(particle) == null ==> fresh(particle) && particle.color == Rgb(0, 255, 0)
      ensures old(particle) == null ==>
        particle.State() == Body((screenWidth / 2) as real, (screenHeight / 2) as real, dx, dy, 0.0, 0.0, Some(Lifespan))
    {
      if particle == null {
        particle := GenerateParticle(screenWidth, screenHeight, dx, dy, Rgb(0, 255, 0));
      }
    }

    /** update(blocks): the particle (if any) moves in the half-open field,
        turns back off the main particle within distance 1 and off the first
        block it is in; that block leaves the field and the particle leaves
        the slot when it is outside [0, w) x [0, h) or out of lifespan. */
    method Update(field: BlockEmitter)
      requires Valid() && field.Valid()
      modifies this, particle, field
      ensures Valid() && field.Valid()
      ensures old(particle) == null ==> particle == null && field.blocks == old(field.blocks)
      ensures old(particle) != null ==>
        old(particle).State() == Advanced(old(particle.State()), old(main.State()), old(field.blocks),
                                          SlotRules(screenWidth, screenHeight))
      ensures old(particle) != null ==>
        particle == if Gone(old(particle).State(), SlotRules(screenWidth, screenHeight)) then null else old(particle)
      ensures old(particle) != null ==>
        field.blocks == FilterOut(old(field.blocks), StruckBy(old(field.blocks), old(particle).State(), HalfOpenCell))
      ensures field.lastDestroyedTime == old(field.lastDestroyedTime)
    {
      var toRemove: seq<Block> := [];
      if particle != null {
        var p := particle;
        var blocks := field.blocks;
        var k := Advance(p, main.State(), blocks, SlotRules(screenWidth, screenHeight));
        if k < |blocks| {
          toRemove := [blocks[k]];
        }
        if p.x < 0.0 || p.y < 0.0 || p.x >= screenWidth as real || p.y >= screenHeight as real || p.lifespan.value <= 0 {
          particle := null;
        }
      } else {
        FilterOutNothing(field.blocks, toRemove);
      }
      field.Discard(toRemove);
    }
  }
}
