/** Blocks and the BlockEmitter of the list-based brick-pong variants
    (brickPongForJetson.py and brickpongForJetson_v2.py): a row-major grid of
    blocks, the removal of every block some particle sits in, and the
    timestamp of the moment the field was first found empty. */
module Blocks {
  import opened Basics
  import opened Kinematics

  /** A block never moves or resizes once made; it is identified by the object. */
  class Block {
    const x: int
    const y: int
    const width: int
    const height: int
    const color: Rgb

    constructor (x: int, y: int, width: int, height: int, color: Rgb)
      ensures this.x == x && this.y == y && this.width == width && this.height == height
      ensures this.color == color
    {
      this.x, this.y := x, y;
      this.width, this.height := width, height;
      this.color := color;
    }
  }

  /** brickPongForJetson.py tests `block.x < p.x < block.x + width` (open);
      brickpongForJetson_v2.py tests `block.x <= p.x < block.x + width` (half-open). */
  datatype Containment = Open | HalfOpenCell

  /** Is the point inside the rectangle with the given top-left corner and size? */
  predicate InRect(left: int, top: int, width: int, height: int, px: real, py: real, c: Containment)
  {
    match c
    case Open =>
      left as real < px < (left + width) as real && top as real < py < (top + height) as real
    case HalfOpenCell =>
      left as real <= px < (left + width) as real && top as real <= py < (top + height) as real
  }

  predicate Inside(b: Block, px: real, py: real, c: Containment)
  {
    InRect(b.x, b.y, b.width, b.height, px, py, c)
  }

  /** The index of the first particle inside b, |ps| when there is none:
      the inner loop of BlockEmitter.update stops at that particle. */
  function FirstInside(b: Block, ps: seq<Body>, c: Containment): (k: nat)
    ensures k <= |ps|
    ensures k < |ps| ==> Inside(b, ps[k].x, ps[k].y, c)
    ensures forall i | 0 <= i < k :: !Inside(b, ps[i].x, ps[i].y, c)
  {
    if ps == [] then 0
    else if Inside(b, ps[0].x, ps[0].y, c) then 0
    else 1 + FirstInside(b, ps[1..], c)
  }

  /** The blocks of bs some particle is inside, in order: blocks_to_remove. */
  function Hit(bs: seq<Block>, ps: seq<Body>, c: Containment): (r: seq<Block>)
    ensures |r| <= |bs|
  {
    if bs == [] then []
    else
      var init, last := bs[..|bs| - 1], bs[|bs| - 1];
      Hit(init, ps, c) + (if FirstInside(last, ps, c) < |ps| then [last] else [])
  }

  /** blocks_to_remove lists exactly the blocks some particle is inside, each
      once when the blocks are distinct objects. */
  lemma {:induction false} HitMembers(bs: seq<Block>, ps: seq<Body>, c: Containment)
    ensures forall b | b in Hit(bs, ps, c) :: b in bs && FirstInside(b, ps, c) < |ps|
    ensures forall b | b in bs && FirstInside(b, ps, c) < |ps| :: b in Hit(bs, ps, c)
    ensures Distinct(bs) ==> Distinct(Hit(bs, ps, c))
  {
    if bs != [] {
      var init, last := bs[..|bs| - 1], bs[|bs| - 1];
      assert bs == init + [last];
      assert Distinct(bs) ==> Distinct(init) && last !in init;
      HitMembers(init, ps, c);
    }
  }

  /** How many blocks of bs have particle j as their first inside particle. */
  function Kicks(bs: seq<Block>, ps: seq<Body>, c: Containment, j: int): nat
  {
    if bs == [] then 0
    else Kicks(bs[..|bs| - 1], ps, c, j) + (if FirstInside(bs[|bs| - 1], ps, c) == j then 1 else 0)
  }

  /** The sum of the horizontal offsets those blocks give particle j;
      offsets[k] is the random.uniform(-4, 10) draw of block k. */
  function Push(bs: seq<Block>, offsets: seq<real>, ps: seq<Body>, c: Containment, j: int): real
    requires |offsets| >= |bs|
  {
    if bs == [] then 0.0
    else
      Push(bs[..|bs| - 1], offsets, ps, c, j)
      + (if FirstInside(bs[|bs| - 1], ps, c) == j then offsets[|bs| - 1] else 0.0)
  }

  /** A particle after `kicks` hits summing to `push`: dy negated once per hit
      and dx shifted by the offsets; its position is untouched. */
  function Kicked(b: Body, kicks: nat, push: real): Body
  {
    b.(dx := b.dx + push, dy := if kicks % 2 == 0 then b.dy else -b.dy)
  }

  /** The particles kicked by the blocks of bs. */
  function SumKicks(bs: seq<Block>, ps: seq<Body>, c: Containment, n: nat): nat
  {
    if n == 0 then 0 else SumKicks(bs, ps, c, n - 1) + Kicks(bs, ps, c, n - 1)
  }

  lemma {:induction false} SumKicksSnoc(bs: seq<Block>, last: Block, ps: seq<Body>, c: Containment, n: nat)
    ensures SumKicks(bs + [last], ps, c, n)
         == SumKicks(bs, ps, c, n) + (if FirstInside(last, ps, c) < n then 1 else 0)
  {
    assert (bs + [last])[..|bs|] == bs;
    if n > 0 {
      SumKicksSnoc(bs, last, ps, c, n - 1);
    }
  }

  /** Every removed block turns back exactly one particle: the hits the
      particles receive add up to the number of blocks removed. */
  lemma {:induction false} EachHitKicksOneParticle(bs: seq<Block>, ps: seq<Body>, c: Containment)
    ensures SumKicks(bs, ps, c, |ps|) == |Hit(bs, ps, c)|
  {
    if bs == [] {
      ZeroKicks(ps, c, |ps|);
    } else {
      var init, last := bs[..|bs| - 1], bs[|bs| - 1];
      assert bs == init + [last];
      EachHitKicksOneParticle(init, ps, c);
      SumKicksSnoc(init, last, ps, c, |ps|);
    }
  }

  lemma {:induction false} ZeroKicks(ps: seq<Body>, c: Containment, n: nat)
    ensures SumKicks([], ps, c, n) == 0
  {
    if n > 0 {
      ZeroKicks(ps, c, n - 1);
    }
  }

  /** Two blocks whose rectangles do not overlap. */
  predicate Apart(a: Block, b: Block)
  {
    a.x + a.width <= b.x || b.x + b.width <= a.x || a.y + a.height <= b.y || b.y + b.height <= a.y
  }

  predicate Disjoint(bs: seq<Block>)
  {
    forall a, b | a in bs && b in bs && a != b :: Apart(a, b)
  }

  /** Where trigger puts its i-th block: column i % perRow, row i // perRow. */
  predicate PlacedAt(b: Block, i: nat, perRow: int, w: int, h: int, color: Rgb)
    requires perRow > 0
  {
    b.x == (i % perRow) * w && b.y == (i / perRow) * h && b.width == w && b.height == h && b.color == color
  }

  /** Two different cells of one axis, each of size w, do not overlap. */
  lemma CellsApart(a: int, b: int, w: int)
    requires a != b && w > 0
    ensures a * w + w <= b * w || b * w + w <= a * w
  {
    if a < b {
      Distance(a, b, w);
    } else {
      Distance(b, a, w);
    }
  }

  lemma Distance(a: int, b: int, w: int)
    requires a < b && w > 0
    ensures a * w + w <= b * w
  {
    MulAtLeast(b - a, w);
    assert (b - a) * w == b * w - a * w;
  }

  lemma {:induction false} MulAtLeast(d: int, w: int)
    requires d >= 1 && w > 0
    ensures d * w >= w
    decreases d
  {
    if d > 1 {
      MulAtLeast(d - 1, w);
      assert d * w == (d - 1) * w + w;
    }
  }

  /** Two numbers with the same quotient and remainder are equal. */
  lemma SameSlot(i: int, j: int, n: int)
    requires n > 0 && i / n == j / n && i % n == j % n
    ensures i == j
  {
    assert i == n * (i / n) + i % n;
    assert j == n * (j / n) + j % n;
  }

  /** Two different slots of the row-major layout do not overlap. */
  lemma SlotsApart(a: Block, b: Block, i: nat, j: nat, perRow: int, w: int, h: int, ca: Rgb, cb: Rgb)
    requires perRow > 0 && w > 0 && h > 0 && i != j
    requires PlacedAt(a, i, perRow, w, h, ca) && PlacedAt(b, j, perRow, w, h, cb)
    ensures Apart(a, b)
  {
    if i % perRow != j % perRow {
      CellsApart(i % perRow, j % perRow, w);
    } else {
      if i / perRow == j / perRow {
        SameSlot(i, j, perRow);
      }
      CellsApart(i / perRow, j / perRow, h);
    }
  }

  /** A point lies in at most one of two blocks that are apart. */
  lemma ApartExcludes(a: Block, b: Block, px: real, py: real, c: Containment)
    requires Apart(a, b) && Inside(a, px, py, c)
    ensures !Inside(b, px, py, c)
  {
  }

  /** On a field of non-overlapping blocks a single particle is inside at most
      one block, so at most one block is removed per update. */
  lemma {:induction false} OneParticleHitsAtMostOne(bs: seq<Block>, p: Body, c: Containment)
    requires Distinct(bs) && Disjoint(bs)
    ensures |Hit(bs, [p], c)| <= 1
  {
    if bs != [] {
      var init, last := bs[..|bs| - 1], bs[|bs| - 1];
      assert bs == init + [last];
      assert Distinct(init) && Disjoint(init);
      OneParticleHitsAtMostOne(init, p, c);
      if FirstInside(last, [p], c) < 1 {
        forall b | b in init
          ensures FirstInside(b, [p], c) == 1
        {
          if b != last {
            ApartExcludes(last, b, p.x, p.y, c);
          }
        }
        NothingHit(init, [p], c);
      }
    }
  }

  lemma NothingHit(bs: seq<Block>, ps: seq<Body>, c: Containment)
    requires forall b | b in bs :: FirstInside(b, ps, c) == |ps|
    ensures Hit(bs, ps, c) == []
  {
  }

  class BlockEmitter {
    const screenWidth: int
    const screenHeight: int
    const blockSize: int
    const blocksPerRow: int
    var blocks: seq<Block>
    var lastDestroyedTime: Option<real>

    /** Blocks are distinct objects, and the clear time is only ever recorded
        while the field is empty. */
    ghost predicate Valid()
      reads this
    {
      blocksPerRow > 0 && Distinct(blocks) && (lastDestroyedTime.Some? ==> blocks == [])
    }

    /** The guarded removal loop of the particle emitters' update, applied to
        this field's list: the named blocks still present leave it. */
    method Discard(toRemove: seq<Block>)
      requires Valid()
      modifies this
      ensures Valid()
      ensures blocks == FilterOut(old(blocks), toRemove)
      ensures lastDestroyedTime == old(lastDestroyedTime)
    {
      blocks := RemoveEach(blocks, toRemove);
    }

    constructor (screenWidth: int, screenHeight: int, blockSize: int, blocksPerRow: int)
      requires blocksPerRow > 0
      ensures Valid()
      ensures this.screenWidth == screenWidth && this.screenHeight == screenHeight
      ensures this.blockSize == blockSize && this.blocksPerRow == blocksPerRow
      ensures blocks == [] && lastDestroyedTime == None
    {
      this.screenWidth, this.screenHeight := screenWidth, screenHeight;
      this.blockSize, this.blocksPerRow := blockSize, blocksPerRow;
      blocks := [];
      lastDestroyedTime := None;
    }

    /** trigger(num_blocks, block_width, block_height): appends num_blocks new
        blocks laid out row-major, colours[i] being block i's colour, and
        forgets the clear time. */
    method Trigger(numBlocks: nat, blockWidth: int, blockHeight: int, colors: seq<Rgb>)
      requires Valid() && |colors| >= numBlocks
      modifies this
      ensures Valid()
      ensures |blocks| == |old(blocks)| + numBlocks
      ensures blocks[..|old(blocks)|] == old(blocks)
      ensures forall j | |old(blocks)| <= j < |blocks| :: fresh(blocks[j])
      ensures forall j | |old(blocks)| <= j < |blocks| ::
        PlacedAt(blocks[j], j - |old(blocks)|, blocksPerRow, blockWidth, blockHeight, colors[j - |old(blocks)|])
      ensures lastDestroyedTime == None
    {
      ghost var n0 := |blocks|;
      var i := 0;
      while i < numBlocks
        invariant 0 <= i <= numBlocks
        invariant Distinct(blocks) && |blocks| == n0 + i
        invariant blocks[..n0] == old(blocks)
        invariant forall j | n0 <= j < |blocks| :: fresh(blocks[j])
        invariant forall j | n0 <= j < |blocks| ::
          PlacedAt(blocks[j], j - n0, blocksPerRow, blockWidth, blockHeight, colors[j - n0])
      {
        var row := i / blocksPerRow;
        var column := i % blocksPerRow;
        var block := new Block(column * blockWidth, row * blockHeight, blockWidth, blockHeight, colors[i]);
        blocks := blocks + [block];
        i := i + 1;
      }
      lastDestroyedTime := None;
    }

    /** update(particles): for each block, the first particle inside it (if any)
        has dy negated and dx shifted by that block's offset, and the block is
        removed; the clear time is recorded the first time the field is empty. */
    method Update(particles: seq<Particle>, c: Containment, offsets: seq<real>, now: real)
      requires Valid() && Distinct(particles) && |offsets| >= |blocks|
      modifies this, particles
      ensures Valid()
      ensures blocks == FilterOut(old(blocks), Hit(old(blocks), old(States(particles)), c))
      ensures |blocks| == |old(blocks)| - |Hit(old(blocks), old(States(particles)), c)|
      ensures States(particles) == AfterHits(old(blocks), offsets, old(States(particles)), c)
      ensures lastDestroyedTime == if blocks == [] && old(lastDestroyedTime).None? then Some(now)
                                   else old(lastDestroyedTime)
    {
      ghost var start := States(particles);
      assert forall j | 0 <= j < |particles| :: particles[j] as object != this;
      var toRemove := Sweep(particles, c, offsets);
      HitMembers(blocks, start, c);
      RemoveAndMark(toRemove, now);
    }

    /** The tail of update: the listed blocks are removed (each is present, so
        list.remove cannot fail) and the clear time is set on first emptiness. */
    method RemoveAndMark(toRemove: seq<Block>, now: real)
      requires Valid() && Distinct(toRemove) && forall b | b in toRemove :: b in blocks
      modifies this
      ensures Valid()
      ensures blocks == FilterOut(old(blocks), toRemove)
      ensures |blocks| == |old(blocks)| - |toRemove|
      ensures lastDestroyedTime == if blocks == [] && old(lastDestroyedTime).None? then Some(now)
                                   else old(lastDestroyedTime)
    {
      blocks := RemoveEachPresent(blocks, toRemove);
      if blocks == [] && lastDestroyedTime.None? {
        lastDestroyedTime := Some(now);
      }
    }

    /** The loop of update over a copy of the blocks: every block hands its
        offset to the first particle inside it and is listed for removal. */
    method Sweep(particles: seq<Particle>, c: Containment, offsets: seq<real>) returns (toRemove: seq<Block>)
      requires Distinct(particles) && |offsets| >= |blocks|
      modifies particles
      ensures toRemove == Hit(blocks, old(States(particles)), c)
      ensures States(particles) == AfterHits(blocks, offsets, old(States(particles)), c)
    {
      ghost var start := States(particles);
      var snapshot := blocks;
      toRemove := [];
      var k := 0;
      assert snapshot[..0] == [];
      while k < |snapshot|
        invariant 0 <= k <= |snapshot|
        invariant toRemove == Hit(snapshot[..k], start, c)
        invariant States(particles) == AfterHits(snapshot[..k], offsets, start, c)
      {
        var block := snapshot[k];
        ghost var before := States(particles);
        var hit := KickFirstInside(block, particles, c, offsets[k]);
        HitsStep(snapshot, k, offsets, start, c, before, States(particles));
        HitPrefixStep(snapshot, k, start, c);
        if hit {
          toRemove := toRemove + [block];
        }
        k := k + 1;
      }
      assert snapshot[..k] == snapshot;
    }
  }

  /** The particles after the blocks of bs have been processed in order. */
  function AfterHits(bs: seq<Block>, offsets: seq<real>, ps: seq<Body>, c: Containment): (r: seq<Body>)
    requires |offsets| >= |bs|
    ensures |r| == |ps|
    ensures forall j | 0 <= j < |ps| :: r[j] == Kicked(ps[j], Kicks(bs, ps, c, j), Push(bs, offsets, ps, c, j))
  {
    seq(|ps|, j requires 0 <= j < |ps| => Kicked(ps[j], Kicks(bs, ps, c, j), Push(bs, offsets, ps, c, j)))
  }

  /** The inner loop of update for one block: the first particle inside it, if
      any, gets dy negated and dx shifted by the offset; hit says whether there was one. */
  method KickFirstInside(block: Block, particles: seq<Particle>, c: Containment, offset: real) returns (hit: bool)
    requires Distinct(particles)
    modifies particles
    ensures hit == (FirstInside(block, old(States(particles)), c) < |particles|)
    ensures States(particles) == KickAt(old(States(particles)), FirstInside(block, old(States(particles)), c), offset)
  {
    ghost var start := States(particles);
    var i := FindFirstInside(block, particles, c);
    KickAtIs(start, i, offset);
    hit := i < |particles|;
    if hit {
      KickOne(particles, i, offset);
    }
  }

  /** The body of the inner loop's hit branch: dy negated, dx shifted. */
  method KickOne(particles: seq<Particle>, i: nat, offset: real)
    requires i < |particles| && Distinct(particles)
    modifies particles[i]
    ensures States(particles) == old(States(particles))[i := Kicked(old(particles[i].State()), 1, offset)]
  {
    var p := particles[i];
    assert forall j | 0 <= j < |particles| && j != i :: particles[j] != p;
    p.dy := -p.dy;
    p.dx := p.dx + offset;
  }

  /** The scan of the inner loop: the index of the first particle inside the
      block, or the number of particles when none is. */
  method FindFirstInside(block: Block, particles: seq<Particle>, c: Containment) returns (i: nat)
    ensures i == FirstInside(block, States(particles), c)
  {
    ghost var start := States(particles);
    i := 0;
    while i < |particles| && !Inside(block, particles[i].x, particles[i].y, c)
      invariant 0 <= i <= |particles|
      invariant forall m | 0 <= m < i :: !Inside(block, start[m].x, start[m].y, c)
    {
      i := i + 1;
    }
    FirstIs(block, start, c, i);
  }

  /** ps with particle k (if it exists) turned back by one block. */
  function KickAt(ps: seq<Body>, k: nat, offset: real): (r: seq<Body>)
    ensures |r| == |ps|
    ensures forall j | 0 <= j < |ps| :: r[j] == if j == k then Kicked(ps[j], 1, offset) else ps[j]
  {
    seq(|ps|, j requires 0 <= j < |ps| => if j == k then Kicked(ps[j], 1, offset) else ps[j])
  }

  lemma KickAtIs(ps: seq<Body>, k: nat, offset: real)
    ensures k < |ps| ==> KickAt(ps, k, offset) == ps[k := Kicked(ps[k], 1, offset)]
    ensures k >= |ps| ==> KickAt(ps, k, offset) == ps
  {
  }

  /** Kicks keep positions, so the first particle inside a block is the same
      before and after other blocks' kicks. */
  lemma {:induction false} FirstInsideSamePositions(b: Block, ps: seq<Body>, qs: seq<Body>, c: Containment)
    requires |ps| == |qs|
    requires forall j | 0 <= j < |ps| :: ps[j].x == qs[j].x && ps[j].y == qs[j].y
    ensures FirstInside(b, ps, c) == FirstInside(b, qs, c)
  {
    if ps != [] {
      FirstInsideSamePositions(b, ps[1..], qs[1..], c);
    }
  }

  lemma HitsStep(s: seq<Block>, k: nat, offsets: seq<real>, start: seq<Body>, c: Containment,
                 before: seq<Body>, after: seq<Body>)
    requires k < |s| && |offsets| >= |s|
    requires before == AfterHits(s[..k], offsets, start, c)
    requires after == KickAt(before, FirstInside(s[k], before, c), offsets[k])
    ensures after == AfterHits(s[..k + 1], offsets, start, c)
    ensures FirstInside(s[k], before, c) == FirstInside(s[k], start, c)
  {
    FirstInsideSamePositions(s[k], before, start, c);
    var target := AfterHits(s[..k + 1], offsets, start, c);
    forall j | 0 <= j < |start|
      ensures after[j] == target[j]
    {
      HitsStepAt(s, k, offsets, start, c, j);
    }
  }

  lemma HitsStepAt(s: seq<Block>, k: nat, offsets: seq<real>, start: seq<Body>, c: Containment, j: nat)
    requires k < |s| && |offsets| >= |s| && j < |start|
    ensures KickAt(AfterHits(s[..k], offsets, start, c), FirstInside(s[k], start, c), offsets[k])[j]
         == AfterHits(s[..k + 1], offsets, start, c)[j]
  {
    PrefixStep(s, k, offsets, start, c, j);
    var f := FirstInside(s[k], start, c);
    var before := AfterHits(s[..k], offsets, start, c);
    var kicks, push := Kicks(s[..k], start, c, j), Push(s[..k], offsets, start, c, j);
    var after := AfterHits(s[..k + 1], offsets, start, c);
    var kicks', push' := Kicks(s[..k + 1], start, c, j), Push(s[..k + 1], offsets, start, c, j);
    assert before[j] == Kicked(start[j], kicks, push);
    assert after[j] == Kicked(start[j], kicks', push');
    if j == f {
      assert kicks' == kicks + 1 && push' == push + offsets[k];
      KickedOnceMore(start[j], kicks, push, offsets[k]);
      assert KickAt(before, f, offsets[k])[j] == Kicked(before[j], 1, offsets[k]);
    } else {
      assert kicks' == kicks && push' == push;
      assert KickAt(before, f, offsets[k])[j] == before[j];
    }
  }

  lemma KickedOnceMore(b: Body, kicks: nat, push: real, offset: real)
    ensures Kicked(Kicked(b, kicks, push), 1, offset) == Kicked(b, kicks + 1, push + offset)
  {
  }

  lemma PrefixStep(s: seq<Block>, k: nat, offsets: seq<real>, start: seq<Body>, c: Containment, j: int)
    requires k < |s| && |offsets| >= |s|
    ensures Kicks(s[..k + 1], start, c, j)
         == Kicks(s[..k], start, c, j) + (if FirstInside(s[k], start, c) == j then 1 else 0)
    ensures Push(s[..k + 1], offsets, start, c, j)
         == Push(s[..k], offsets, start, c, j) + (if FirstInside(s[k], start, c) == j then offsets[k] else 0.0)
  {
    assert s[..k + 1][..k] == s[..k];
  }

  /** Processing one more block extends blocks_to_remove by that block exactly when it is hit. */
  lemma HitPrefixStep(s: seq<Block>, k: nat, start: seq<Body>, c: Containment)
    requires k < |s|
    ensures Hit(s[..k + 1], start, c) == Hit(s[..k], start, c) + (if FirstInside(s[k], start, c) < |start| then [s[k]] else [])
  {
    assert s[..k + 1][..k] == s[..k];
  }

  lemma FirstIs(b: Block, ps: seq<Body>, c: Containment, i: nat)
    requires i <= |ps| && (i < |ps| ==> Inside(b, ps[i].x, ps[i].y, c))
    requires forall m | 0 <= m < i :: !Inside(b, ps[m].x, ps[m].y, c)
    ensures FirstInside(b, ps, c) == i
  {
  }
}
