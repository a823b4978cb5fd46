# Game and LED-wall logic of the EventDrivenArchitecture demos, in Dafny

This project models the integer and grid-level game logic that the
EventDrivenArchitecture demos share: the brick-pong simulations, the brick
and paddle games, the snakes and the 20 x 20 LED-wall effects, plus the
finger counting and text layout of the hand-controlled mode selector.

The three Python brick-pong variants are modelled as classes whose fields
their methods update, as in the sources:
- brickPongForJetson.py, with a list of particle objects;
- brickPong.py, with parallel arrays of particle slots;
- brickpongForJetson_v2.py, with a single particle slot on a 20 x 20 field.

The C++ and C demos are modelled the same way: `Breakout` and `Snakes` for
the games; `LedSelector`, `Ripples` and `FallingSand` for the LED walls.

Modules:
- `Basics`: optional values, colours, truncation to int, and the list
  removals the sources perform.
- `Kinematics`: the damped, reflecting particle.
- `Blocks`: the block field and its update.
- `Emitters`: the list and slot particle emitters.
- `ParticleArrays`: the struct-of-arrays emitter.
- `Arena`: the moving bar and the per-frame bookkeeping of `Game.run`.
- `GridRender`: the 20 x 20 frame of brickpongForJetson_v2.py.
- `Breakout`: the brick wall, bar, paddle and ball of the C games.
- `Snakes`: the grid snake and the free snake.
- `LedWall`: the LED wall and its movement masks.
- `LedSelector`: gameSelector2.cpp's mode selector.
- `Ripples`: optimisedRipplePixels.cpp.
- `FallingSand`: the falling-sand demo.
- `HandModes`: finger counting, `put_text` and the dwell rule.

Values that come from outside the program are parameters:
- random draws;
- the results of `cos` and `sin`;
- `time.time()`;
- camera movement masks and hand landmarks.

Each method is proved against a specification function. The main properties
proved are:
- a bar, paddle or snake head never leaves the screen;
- a single particle removes at most one block per tick;
- the block field loses exactly the blocks some particle is inside;
- every trigger tops up or regenerates exactly the slots the source does;
- LED timers fade to green after exactly their remaining frames;
- six qualifying checks in a row select a mode;
- the ripple and sand caps are respected;
- ripple and sand lifetimes are exact;
- the snake grows by exactly the food it eats;
- a hand shows between 0 and 5 fingers;
- a mode is chosen only after its count has been held.

## Model

| member | source | states |
|---|---|---|
| Basics.Trunc | Ellie_connected_v3/modeSelection/brickpongForJetson_v2.py:297-303 | `int()` of a float truncates toward zero: the result is the integer part, never larger in magnitude than the input |
| Basics.FirstIndex | Ellie_connected_v2/modeSelection/brickPongForJetson.py:141-142 | the position list.remove looks up is the first occurrence of the item, or the length when it is absent |
| Basics.Without | Ellie_connected_v2/modeSelection/brickPongForJetson.py:141-142 | list.remove drops one element when the item is present and nothing otherwise |
| Basics.FilterOut | Ellie_connected_v2/modeSelection/brickPongForJetson.py:140-146 | what the removal loops leave is never longer than the list |
| Basics.FilterOutMembers | Ellie_connected_v2/modeSelection/brickPongForJetson.py:140-146 | after the removal loop the list holds exactly the elements the removal list does not name |
| Basics.FilterOutDistinct | Ellie_connected_v2/modeSelection/brickPongForJetson.py:140-146 | removal keeps a list of distinct objects distinct |
| Basics.FilterOutAbsent | Ellie_connected_v2/modeSelection/brickPongForJetson.py:140-146 | naming objects that are not in the list changes nothing |
| Basics.FilterOutNothing | Ellie_connected_v2/modeSelection/brickPongForJetson.py:140-146 | a removal list that names nothing in the list leaves it unchanged |
| Basics.FilterOutTwice | Ellie_connected_v2/modeSelection/brickPongForJetson.py:140-146 | removing one list and then another is removing both at once |
| Basics.WithoutIsFilterOut | Ellie_connected_v2/modeSelection/brickPongForJetson.py:141-142 | on a list without repeats, list.remove(x) filters x out |
| Basics.OrderKept | Ellie_connected_v2/modeSelection/brickPongForJetson.py:141-142 | removing an element keeps the others in order |
| Basics.FilterOutStep | Ellie_connected_v2/modeSelection/brickPongForJetson.py:140-146 | one more list.remove is one more element filtered out |
| Basics.FilterOutDropsAtMost | Ellie_connected_v2/modeSelection/brickPongForJetson.py:140-146 | filtering r out drops at most \|r\| elements |
| Basics.RemoveEach | Ellie_connected_v2/modeSelection/brickPongForJetson.py:140-146 | the guarded loop `if x in s: s.remove(x)` keeps, in order, exactly the unnamed elements |
| Basics.RemoveEachPresent | Ellie_connected_v2/modeSelection/brickPongForJetson.py:190-191 | the unguarded removal of distinct present blocks removes exactly \|r\| of them and keeps the rest in order |
| Kinematics.Particle.constructor | Ellie_connected_v2/modeSelection/brickPongForJetson.py:50-61 | a new particle has the given position, velocity, colour and lifespan, and no acceleration |
| Kinematics.Particle.Move | Ellie_connected_v2/modeSelection/brickPongForJetson.py:63-82 | move adds acceleration, damps by 0.98, counts the lifespan down, reflects a component whose predicted coordinate leaves the field, then adds the velocity; the closed or half-open edge rule is a parameter |
| Kinematics.Particle.UpdateAcceleration | Ellie_connected_v2/modeSelection/brickPongForJetson.py:90-92 | the input acceleration is stored scaled by the damping, and nothing else changes |
| Kinematics.States | Ellie_connected_v2/modeSelection/brickPongForJetson.py:120-121 | the states of a particle list, one per particle, in order |
| Kinematics.LifespanAfterMoves | Ellie_connected_v2/modeSelection/brickPongForJetson.py:73-74 | after n moves the lifespan is exactly n lower when present and still absent otherwise |
| Kinematics.BounceFlipsOnlyAtEdges | Ellie_connected_v2/modeSelection/brickPongForJetson.py:76-79 | a velocity component keeps its magnitude and changes exactly when it is nonzero and the predicted coordinate leaves the field |
| Kinematics.SpeedNeverGrows | Ellie_connected_v2/modeSelection/brickPongForJetson.py:63-82 | with no acceleration, no velocity component grows over any number of moves |
| Kinematics.MoveNoFaster | Ellie_connected_v2/modeSelection/brickPongForJetson.py:63-68 | one move with no acceleration never speeds a component up |
| Kinematics.AxisStays | Ellie_connected_v3/modeSelection/brickpongForJetson_v2.py:76-82 | a reflected step of at most half the field lands inside it |
| Kinematics.StaysInField | Ellie_connected_v3/modeSelection/brickpongForJetson_v2.py:63-82 | a particle in the field with a damped step of at most half the field stays in it |
| Blocks.Block.constructor | Ellie_connected_v2/modeSelection/brickPongForJetson.py:152-158 | a block holds the given corner, size and colour |
| Blocks.FirstInside | Ellie_connected_v2/modeSelection/brickPongForJetson.py:183-188 | the particle the inner loop breaks at is the first one inside the block, or none |
| Blocks.Hit | Ellie_connected_v2/modeSelection/brickPongForJetson.py:181-188 | blocks_to_remove is no longer than the field |
| Blocks.HitMembers | Ellie_connected_v2/modeSelection/brickPongForJetson.py:181-188 | blocks_to_remove lists exactly the blocks some particle is inside, without repeats |
| Blocks.SumKicksSnoc | Ellie_connected_v2/modeSelection/brickPongForJetson.py:182-188 | the kicks count grows by one exactly when one more block is hit |
| Blocks.EachHitKicksOneParticle | Ellie_connected_v2/modeSelection/brickPongForJetson.py:182-188 | each removed block turns back exactly one particle: the total kicks equal the hits |
| Blocks.ZeroKicks | Ellie_connected_v2/modeSelection/brickPongForJetson.py:182-188 | no blocks, no kicks |
| Blocks.CellsApart | Ellie_connected_v2/modeSelection/brickPongForJetson.py:170-174 | two different cells of one axis do not overlap |
| Blocks.SlotsApart | Ellie_connected_v2/modeSelection/brickPongForJetson.py:169-178 | two different slots of trigger's row-major layout do not overlap |
| Blocks.ApartExcludes | Ellie_connected_v2/modeSelection/brickPongForJetson.py:184 | a point lies in at most one of two non-overlapping blocks |
| Blocks.OneParticleHitsAtMostOne | Ellie_connected_v2/modeSelection/brickPongForJetson.py:300 | on a field of non-overlapping blocks, the main particle alone removes at most one block |
| Blocks.NothingHit | Ellie_connected_v2/modeSelection/brickPongForJetson.py:180-191 | with no particle inside any block, nothing is removed |
| Blocks.BlockEmitter.constructor | Ellie_connected_v2/modeSelection/brickPongForJetson.py:161-167 | an empty field with no clear time |
| Blocks.BlockEmitter.Discard | Ellie_connected_v2/modeSelection/brickPongForJetson.py:140-142 | the guarded removal of the struck blocks filters them out and keeps the clear time |
| Blocks.BlockEmitter.Trigger | Ellie_connected_v2/modeSelection/brickPongForJetson.py:169-178 | num_blocks fresh blocks are appended at column i % per_row and row i // per_row, block i taking the i-th given colour (always white here, random in brickPong.py), and the clear time is reset |
| Blocks.BlockEmitter.Update | Ellie_connected_v2/modeSelection/brickPongForJetson.py:180-194 | exactly the blocks some particle is inside are removed; the first particle inside each is turned back and pushed; the clear time is set only when the field first becomes empty |
| Blocks.BlockEmitter.RemoveAndMark | Ellie_connected_v2/modeSelection/brickPongForJetson.py:190-194 | the removal loop drops exactly the listed blocks and marks the first emptiness |
| Blocks.BlockEmitter.Sweep | Ellie_connected_v2/modeSelection/brickPongForJetson.py:181-188 | the block loop returns exactly the hit blocks and leaves every particle kicked once per block it was first inside |
| Blocks.AfterHits | Ellie_connected_v2/modeSelection/brickPongForJetson.py:182-188 | each particle's dy is negated once per block it was first inside, and its dx shifted by those blocks' offsets |
| Blocks.KickFirstInside | Ellie_connected_v2/modeSelection/brickPongForJetson.py:183-188 | the inner loop kicks only the first particle inside the block and reports whether there was one |
| Blocks.KickOne | Ellie_connected_v2/modeSelection/brickPongForJetson.py:186-187 | dy is negated and dx shifted for that particle only |
| Blocks.FindFirstInside | Ellie_connected_v2/modeSelection/brickPongForJetson.py:183-184 | the scan stops at the first particle inside |
| Blocks.KickAt | Ellie_connected_v2/modeSelection/brickPongForJetson.py:186-187 | only the chosen particle changes |
| Blocks.FirstInsideSamePositions | Ellie_connected_v2/modeSelection/brickPongForJetson.py:182-188 | kicks keep positions, so earlier blocks do not change which particle a later block finds |
| Blocks.HitPrefixStep | Ellie_connected_v2/modeSelection/brickPongForJetson.py:182-185 | one more block extends blocks_to_remove exactly when it is hit |
| Emitters.FirstContaining | Ellie_connected_v2/modeSelection/brickPongForJetson.py:127-132 | the block the particle loop breaks at is the first block containing the particle, or none |
| Emitters.AdvancedAll | Ellie_connected_v2/modeSelection/brickPongForJetson.py:120-132 | every particle takes its turn |
| Emitters.StruckBy | Ellie_connected_v2/modeSelection/brickPongForJetson.py:127-132 | a particle strikes at most one block; it strikes none exactly when no block contains it |
| Emitters.Struck | Ellie_connected_v2/modeSelection/brickPongForJetson.py:117-132 | blocks_to_remove gets at most one entry per particle |
| Emitters.StruckAreHit | Ellie_connected_v2/modeSelection/brickPongForJetson.py:127-132 | every listed block is in the field and contains some particle |
| Emitters.GoneFor | Ellie_connected_v2/modeSelection/brickPongForJetson.py:134-138 | a particle is listed for removal exactly when it left the field or its lifespan ran out |
| Emitters.Survivors | Ellie_connected_v2/modeSelection/brickPongForJetson.py:144-146 | the surviving particles come from the list |
| Emitters.RemovingGoneKeepsSurvivors | Ellie_connected_v2/modeSelection/brickPongForJetson.py:134-146 | removing particles_to_remove, even with duplicates, keeps exactly the particles not gone |
| Emitters.Advance | Ellie_connected_v2/modeSelection/brickPongForJetson.py:121-132 | one particle's turn: move, bounce off the main particle, then the first containing block turns it back |
| Emitters.GenerateParticle | Ellie_connected_v2/modeSelection/brickPongForJetson.py:102-109 | a fresh particle at the screen centre with lifespan 300 and the drawn velocity |
| Emitters.ParticleEmitter.constructor | Ellie_connected_v2/modeSelection/brickPongForJetson.py:95-100 | an emitter with no particles |
| Emitters.ParticleEmitter.Trigger | Ellie_connected_v2/modeSelection/brickPongForJetson.py:111-114 | the list is topped up to exactly num_particles fresh particles, and is left alone when already full |
| Emitters.ParticleEmitter.Update | Ellie_connected_v2/modeSelection/brickPongForJetson.py:116-146 | every particle takes its turn; exactly the struck blocks leave the field; exactly the particles not gone stay |
| Emitters.ParticleEmitter.Finish | Ellie_connected_v2/modeSelection/brickPongForJetson.py:140-146 | the two removal loops |
| Emitters.ParticleEmitter.DropParticles | Ellie_connected_v2/modeSelection/brickPongForJetson.py:144-146 | the particle removal loop keeps exactly the survivors |
| Emitters.ParticleEmitter.TakeTurns | Ellie_connected_v2/modeSelection/brickPongForJetson.py:120-138 | the particle loop yields the advanced states and both removal lists |
| Emitters.TurnsOf | Ellie_connected_v2/modeSelection/brickPongForJetson.py:120-138 | the same loop, on a list of particles |
| Emitters.Turn | Ellie_connected_v2/modeSelection/brickPongForJetson.py:121-138 | the body of the particle loop for particle i |
| Emitters.AtMostOneBlockPerTick | Ellie_connected_v3/modeSelection/brickpongForJetson_v2.py:124-136 | the single particle removes at most one block per update, and only one it is inside |
| Emitters.SlotEmitter.constructor | Ellie_connected_v3/modeSelection/brickpongForJetson_v2.py:95-99 | an empty slot |
| Emitters.SlotEmitter.Trigger | Ellie_connected_v3/modeSelection/brickpongForJetson_v2.py:101-112 | a green centred particle with lifespan 300 is created only when the slot is empty, so a second trigger changes nothing |
| Emitters.SlotEmitter.Update | Ellie_connected_v3/modeSelection/brickpongForJetson_v2.py:114-136 | the particle takes its half-open turn; it is dropped exactly when it is outside [0,w)x[0,h) or its lifespan is at most 0; at most the one block it strikes is removed |
| ParticleArrays.Recycled | Ellie_connected_v3/brickPongVersions/brickPong.py:137-151 | a slot that the pre-decrement mask keeps has moved with one less lifespan; any other slot is regenerated |
| ParticleArrays.RecycledBounds | Ellie_connected_v3/brickPongVersions/brickPong.py:147-151 | lifespans stay at most 300; a slot the mask keeps is below 300 and lies in the closed field |
| ParticleArrays.AddInto | Ellie_connected_v3/brickPongVersions/brickPong.py:138-139 | the whole-array `+=` |
| ParticleArrays.Damp | Ellie_connected_v3/brickPongVersions/brickPong.py:140-141 | the whole-array `*= 0.98` |
| ParticleArrays.Decrement | Ellie_connected_v3/brickPongVersions/brickPong.py:148 | every lifespan drops by one |
| ParticleArrays.ArrayEmitter.Slots | Ellie_connected_v3/brickPongVersions/brickPong.py:113-119 | one state per slot |
| ParticleArrays.ArrayEmitter.constructor | Ellie_connected_v3/brickPongVersions/brickPong.py:106-121 | num_particles zeroed black slots and an empty particle list |
| ParticleArrays.ArrayEmitter.GenerateParticle | Ellie_connected_v3/brickPongVersions/brickPong.py:123-131 | slot idx is reset to the centre with lifespan 300 and the drawn values; every other slot is unchanged |
| ParticleArrays.ArrayEmitter.Trigger | Ellie_connected_v3/brickPongVersions/brickPong.py:133-135 | every slot is regenerated |
| ParticleArrays.ArrayEmitter.Update | Ellie_connected_v3/brickPongVersions/brickPong.py:137-151 | each slot is recycled from its own old state, with array lengths unchanged |
| ParticleArrays.ArrayEmitter.Drift | Ellie_connected_v3/brickPongVersions/brickPong.py:138-144 | acceleration, damping and the position step on every slot |
| ParticleArrays.ArrayEmitter.Mask | Ellie_connected_v3/brickPongVersions/brickPong.py:147 | the mask is taken on the pre-decrement lifespan and the bounds |
| ParticleArrays.ArrayEmitter.Regenerate | Ellie_connected_v3/brickPongVersions/brickPong.py:149-151 | exactly the masked-out slots are regenerated |
| ParticleArrays.ArrayEmitter.KickFirstInside | Ellie_connected_v3/brickPongVersions/brickPong.py:199-204 | only the first slot inside the block is turned back and pushed |
| ParticleArrays.ArrayEmitter.KickSlot | Ellie_connected_v3/brickPongVersions/brickPong.py:202-203 | dy is negated and dx shifted for slot i only |
| ParticleArrays.ArrayEmitter.Sweep | Ellie_connected_v3/brickPongVersions/brickPong.py:197-204 | the block loop returns the hit blocks and kicks each slot once per block it was first inside |
| ParticleArrays.UpdateBlocks | Ellie_connected_v3/brickPongVersions/brickPong.py:196-210 | exactly the hit blocks leave; the slots are kicked as above; the clear time is set only on first emptiness |
| ParticleArrays.ArrayBlockPhase | Ellie_connected_v3/brickPongVersions/brickPong.py:313-318 | destroyed_bricks grows by exactly the number of blocks some slot was inside |
| ParticleArrays.ArrayFrameEnd | Ellie_connected_v3/brickPongVersions/brickPong.py:318-331 | the burst fires exactly at 20 or more bricks with none running, resets the count and regenerates every slot with its drawn colour; emitter_triggered is cleared in the same frame, because the particle list stays empty; a due respawn lays out 100 blocks of 40 by 20 in row-major order and forgets the clear time; whatever does not fire leaves its state unchanged |
| Arena.Slide | Ellie_connected_v2/modeSelection/brickPongForJetson.py:229-235 | the bar moves by exactly speed or not at all, and an on-screen bar stays on screen |
| Arena.BarStaysOnScreen | Ellie_connected_v2/modeSelection/brickPongForJetson.py:229-235 | over any sequence of directions the bar stays on screen and drifts at most speed per step |
| Arena.MovingBar.Wide | Ellie_connected_v2/modeSelection/brickPongForJetson.py:197-204 | the 400 x 20 bar, centred 30 above the bottom |
| Arena.MovingBar.Narrow | Ellie_connected_v3/modeSelection/brickpongForJetson_v2.py:187-194 | the 6 x 1 bar; on the 20 x 20 field it starts at x = 7, y = 18 |
| Arena.MovingBar.UpdateDirection | Ellie_connected_v2/modeSelection/brickPongForJetson.py:221-222 | the reported direction is stored |
| Arena.MovingBar.Update | Ellie_connected_v3/modeSelection/brickpongForJetson_v2.py:219-225 | one Slide step, which keeps the bar on screen |
| Arena.BarKicked | Ellie_connected_v2/modeSelection/brickPongForJetson.py:286-290 | dy doubled and turned back, dx pushed, and the particle lifted clear of the bar |
| Arena.BarContact | Ellie_connected_v3/modeSelection/brickpongForJetson_v2.py:269-272 | the particle is kicked exactly when it is on the bar |
| Arena.Tally.constructor | Ellie_connected_v2/modeSelection/brickPongForJetson.py:260-261 | the counters start at zero and false |
| Arena.Tally.Count | Ellie_connected_v2/modeSelection/brickPongForJetson.py:303 | destroyed_bricks changes by the difference of the two field sizes it is given, and the burst flag is kept; `Arena.ListBlockPhase`, `Arena.SlotBlockPhase` and `ParticleArrays.ArrayBlockPhase` supply those sizes |
| Arena.Tally.Burst | Ellie_connected_v2/modeSelection/brickPongForJetson.py:307-310 | a burst fires exactly at 20 or more bricks with no burst running, and resets the count |
| Arena.Tally.Settle | Ellie_connected_v2/modeSelection/brickPongForJetson.py:312-313 | the burst ends once the emitter is empty |
| Arena.UpdateAgainst | Ellie_connected_v2/modeSelection/brickPongForJetson.py:300 | `block_emitter.update([p])`: the field loses exactly the block the particle hit, the particle is turned back by it, and the clear time is set only on first emptiness |
| Arena.UpdateTwice | Ellie_connected_v2/modeSelection/brickPongForJetson.py:299-300 | the field loses the blocks the particle list hit, then the block the main particle hits in what is left; the list particles are turned back by their blocks, and the main particle by its block in what is left |
| Arena.ListBlockPhase | Ellie_connected_v2/modeSelection/brickPongForJetson.py:298-303 | destroyed_bricks grows by exactly the number of blocks the two updates hit; the field keeps the rest in order; the list particles and then the main particle are turned back by the blocks they hit |
| Arena.SlotBlockPhase | Ellie_connected_v3/modeSelection/brickpongForJetson_v2.py:274-278 | destroyed_bricks grows by exactly the number of blocks the main particle hit |
| Arena.Respawn | Ellie_connected_v2/modeSelection/brickPongForJetson.py:315-318 | ten seconds after a truthy clear time the field is refilled and the clear time reset; otherwise nothing changes |
| Arena.ListFrameEnd | Ellie_connected_v2/modeSelection/brickPongForJetson.py:307-318 | the burst fires exactly at 20 or more bricks with none running, then resets the count and tops the emitter up with fresh centred particles; the flag ends set exactly when a burst ran or was running and particles remain; a due respawn lays out 100 blocks of 40 by 20 and forgets the clear time; whatever does not fire leaves its state unchanged |
| Arena.SlotFrameEnd | Ellie_connected_v3/modeSelection/brickpongForJetson_v2.py:282-293 | the burst fires exactly at 20 or more bricks with none running, resets the count and fills an empty slot with a fresh green centred particle; the flag ends set exactly when a burst ran or was running and the slot is occupied; a due respawn lays out 40 white one-cell blocks; whatever does not fire leaves its state unchanged |
| GridRender.LastBlockAt | Ellie_connected_v3/modeSelection/brickpongForJetson_v2.py:305-307 | a cell shows the colour of the last block whose corner it is, or no block |
| GridRender.Paint | Ellie_connected_v3/modeSelection/brickpongForJetson_v2.py:297-298 | only in-bounds cells are written |
| GridRender.PaintBlocks | Ellie_connected_v3/modeSelection/brickpongForJetson_v2.py:305-307 | each block paints its in-bounds corner cell |
| GridRender.PaintBar | Ellie_connected_v3/modeSelection/brickpongForJetson_v2.py:309-312 | every in-bounds bar cell turns white, and nothing else changes |
| GridRender.PaintColumn | Ellie_connected_v3/modeSelection/brickpongForJetson_v2.py:310-312 | the inner bar loop for one column |
| GridRender.Render | Ellie_connected_v3/modeSelection/brickpongForJetson_v2.py:295-312 | every cell of the frame has the colour the drawing order gives it |
| Breakout.InitializeBricks | C/posenet/zoomedPong.cpp:65-72 | exactly 50 active bricks at (col·64, row·20) |
| Breakout.RowMajor | C/posenet/zoomedPong.cpp:67-69 | the index of (row, col) gives back that row and column |
| Breakout.GridBrickInside | C/eventDriven/gameSelector2.cpp:341-351 | every brick lies within the display width and the top rows |
| Breakout.GridBricksApart | C/eventDriven/gameSelector2.cpp:341-351 | no two bricks overlap |
| Breakout.Clamp | C/eventDriven/gameSelector2.cpp:443-444 | after the two clamps, 0 <= x <= DISPLAY_WIDTH - width, and an on-screen position is kept |
| Breakout.Bar.constructor | C/eventDriven/gameSelector2.cpp:336-338 | the bar starts flush left on the bottom rows, 100 wide |
| Breakout.Bar.Update | C/eventDriven/gameSelector2.cpp:435-444 | right-half movement pushes the bar left and left-half movement pushes it right, each by intensity / 500; then the clamp |
| Breakout.Paddle.constructor | C/posenet/zoomedPong.cpp:238 | the paddle starts at (WINDOW_WIDTH/2 - PADDLE_WIDTH/2, WINDOW_HEIGHT - PADDLE_HEIGHT) = (270, 460), on the display |
| Breakout.UpdatePaddle | C/posenet/zoomedPong.cpp:74-82 | the paddle is centred under the mirrored hand and clamped to 0 <= x <= WINDOW_WIDTH - PADDLE_WIDTH |
| Breakout.Fly | C/posenet/zoomedPong.cpp:85-94 | one step; vx is negated exactly when the moved ball is past a side wall and vy exactly when it is above the top, and otherwise kept |
| Breakout.PaddleSendsUp | C/posenet/zoomedPong.cpp:97-100 | a paddle hit negates vy and puts the ball at paddle.y - BALL_SIZE |
| Breakout.Swept | C/posenet/zoomedPong.cpp:104-113 | exactly the active bricks the ball overlaps are deactivated |
| Breakout.SweepLosesHits | C/posenet/zoomedPong.cpp:104-113 | the active count drops by exactly the number of hits |
| Breakout.SweepBricks | C/posenet/zoomedPong.cpp:103-113 | the brick loop deactivates the hits, flips vy once per hit, and reports whether no brick was active at the start |
| Breakout.Ball.constructor | C/posenet/zoomedPong.cpp:237 | the ball is served from the centre with velocity (4, 4) |
| Breakout.Ball.Update | C/posenet/zoomedPong.cpp:84-128 | flight, paddle and bricks; bricks are rebuilt only when none was active; a ball below the bottom restarts at the centre with (4, 4) |
| Breakout.Ball.FlyAndBounce | C/posenet/zoomedPong.cpp:85-100 | the step, the wall bounces and the paddle |
| Snakes.Uneaten | C/posenet/combined/combinedSnake.cpp:95-104 | the erase loop never adds food |
| Snakes.EatingAccounts | C/posenet/combined/combinedSnake.cpp:95-104 | the food drops by exactly the number eaten; no touched item is left; nothing new appears |
| Snakes.EatFood | C/posenet/combined/combinedSnake.cpp:95-104 | the erase loop leaves the uneaten food in order and counts the eaten |
| Snakes.EraseOrStep | C/posenet/combined/combinedSnake.cpp:96-103 | the body of the erase loop: erase and count, or step the iterator |
| Snakes.Grown | C/posenet/combined/combinedSnake.cpp:92-111 | the new head goes in front; the tail pops exactly when nothing is owed, otherwise the body grows by one and the debt drops by one |
| Snakes.Grow | C/eventDriven/gameSelector2.cpp:587-606 | insert at the front, then pop_back or pay one owed segment |
| Snakes.WrapStaysOnGrid | C/posenet/combined/combinedSnake.cpp:83-89 | after the step and the wrap the head is on a grid cell in [0, W-G] x [0, H-G], and it has moved |
| Snakes.Heading | C/posenet/combined/combinedSnake.cpp:62-80 | the velocity is one grid cell along the axis where the hand is further away, towards the hand |
| Snakes.InitializeFood | C/posenet/combined/combinedSnake.cpp:49-59 | quantity items on multiples of GRID_SIZE inside the window |
| Snakes.Snake.constructor | C/posenet/combined/combinedSnake.cpp:239-240 | a snake made by initialize_snake |
| Snakes.Snake.Initialize | C/posenet/combined/combinedSnake.cpp:41-47 | one segment at the window centre, velocity (0, -GRID_SIZE), nothing owed |
| Snakes.Snake.Update | C/posenet/combined/combinedSnake.cpp:61-112 | steer when a hand is seen, step and wrap, insert, eat, then pop or pay |
| Snakes.Snake.Steer | C/posenet/combined/combinedSnake.cpp:62-80 | the turn is taken only when a hand is seen |
| Snakes.Snake.StepHead | C/posenet/combined/combinedSnake.cpp:83-89 | the next head |
| Snakes.SnakeFrame | C/posenet/combined/combinedSnake.cpp:294-300 | when the update leaves food, the frame is exactly that update and the food left; otherwise the snake is one centre segment heading up with nothing owed and the food is the ten drawn items; a frame never ends without food |
| Snakes.FreeSnake.constructor | C/eventDriven/gameSelector2.cpp:498-502 | one segment at the centre, radius 10, nothing owed |
| Snakes.FreeSnake.Advance | C/eventDriven/gameSelector2.cpp:587-606 | the food near the new head is erased; the head goes in front; the tail is kept exactly when segments are owed after eating, and one owed segment is then paid |
| Snakes.GrowthIsEaten | C/eventDriven/gameSelector2.cpp:587-606 | over any run of steps, body length plus debt equals the starting length plus starting debt plus everything eaten, and the debt never goes negative |
| Snakes.Steps | C/eventDriven/gameSelector2.cpp:587-606 | the body is never empty and the debt never negative |
| LedWall.Put | C/eventDriven/optimisedRipplePixels.cpp:107 | exactly one cell changes |
| LedWall.RowFlagged | C/openCVexamples/videoArrayExamples/video2Array_fallinSand_noFloat.c:53-54 | the flagged cells of a row, left to right |
| LedWall.Take | C/openCVexamples/videoArrayExamples/video2Array_fallinSand_noFloat.c:55-63 | a capped prefix |
| LedWall.FlaggedPrefix | C/openCVexamples/videoArrayExamples/video2Array_fallinSand_noFloat.c:52-67 | the cells scanned so far start the full scan |
| LedWall.ScanPrefix | C/openCVexamples/videoArrayExamples/video2Array_fallinSand_noFloat.c:52-67 | the cells up to (x, y) start the full scan |
| LedWall.FlaggedInWall | C/openCVexamples/videoArrayExamples/video2Array_fallinSand_noFloat.c:52-57 | every flagged cell is an LED of the wall |
| LedWall.CapReached | C/openCVexamples/videoArrayExamples/video2Array_fallinSand_noFloat.c:62-63 | the scan returning at the cap has taken exactly the first cap cells |
| LedSelector.Tick | C/eventDriven/gameSelector2.cpp:172-183 | only positive timers count down; the LED turns green exactly when its timer reaches 0 |
| LedSelector.TickKeepsCoherent | C/eventDriven/gameSelector2.cpp:140-183 | marking and ticking keep an LED red exactly while its timer runs |
| LedSelector.FadesToGreen | C/eventDriven/gameSelector2.cpp:172-183 | a red LED stays red for exactly its remaining timer, then stays green |
| LedSelector.CountSplit | C/eventDriven/gameSelector2.cpp:140-152 | counts over a row add up |
| LedSelector.BandSplit | C/eventDriven/gameSelector2.cpp:140-152 | counts over column bands add up |
| LedSelector.EveryPixelCountedOnce | C/eventDriven/gameSelector2.cpp:145-149 | every moving pixel is counted once, on the left if x < LED_WIDTH/2, else on the right |
| LedSelector.Bump | C/eventDriven/gameSelector2.cpp:154-164 | a counter rises by one when its half saw more than MIN_ACTIVE_PIXELS moving pixels, otherwise falls by one but not below 0 |
| LedSelector.Selection | C/eventDriven/gameSelector2.cpp:283-293 | mode 1 exactly at 6 left detections; mode 2 at 6 right detections otherwise |
| LedSelector.DetectionsAreRuns | C/eventDriven/gameSelector2.cpp:272-281 | from zero, a side's detections count its latest run of qualifying checks, and the other side's is then 0 |
| LedSelector.SixInARowSelects | C/eventDriven/gameSelector2.cpp:268-293 | six qualifying checks in a row on one side select that side's mode |
| LedSelector.LeftRun | C/eventDriven/gameSelector2.cpp:272-274 | a run of left checks adds at least that many left detections |
| LedSelector.RightRun | C/eventDriven/gameSelector2.cpp:275-277 | the same on the right |
| LedSelector.ModeSelector.constructor | C/eventDriven/gameSelector2.cpp:218-231 | all LEDs green with timer 0, and every counter 0 |
| LedSelector.ModeSelector.DetectMovement | C/eventDriven/gameSelector2.cpp:140-164 | moving pixels turn red with RED_DURATION and the others keep their state; each counter is bumped by its half's count |
| LedSelector.ModeSelector.MarkAll | C/eventDriven/gameSelector2.cpp:140-152 | the marking loops, with the left and right counts |
| LedSelector.ModeSelector.MarkRow | C/eventDriven/gameSelector2.cpp:141-151 | the inner marking loop |
| LedSelector.ModeSelector.UpdateLedStates | C/eventDriven/gameSelector2.cpp:172-183 | every LED ticks once |
| LedSelector.ModeSelector.TickRow | C/eventDriven/gameSelector2.cpp:174-181 | the inner tick loop |
| LedSelector.ModeSelector.Check | C/eventDriven/gameSelector2.cpp:268-293 | every CHECK_INTERVAL frames the detections advance and a mode may be returned; otherwise nothing is checked |
| LedSelector.ModeSelector.Frame | C/eventDriven/gameSelector2.cpp:251-293 | movement marks and bumps, every LED ticks; on every CHECK_INTERVAL-th frame the detections advance on the bumped counters and their selection is returned, otherwise nothing is returned and the detections are kept |
| Ripples.FloorSqrt | C/eventDriven/optimisedRipplePixels.cpp:103 | `int dist = sqrt(d2)` is the integer square root |
| Ripples.SquareMonotone | C/eventDriven/optimisedRipplePixels.cpp:103-104 | squares preserve order on naturals |
| Ripples.ReachesWithin | C/eventDriven/optimisedRipplePixels.cpp:103-104 | an LED is covered exactly when its squared distance is below (radius+1)² |
| Ripples.Aged | C/eventDriven/optimisedRipplePixels.cpp:97-99 | the radius rises by 1 and the duration drops by 1, in place |
| Ripples.AgedCoversMore | C/eventDriven/optimisedRipplePixels.cpp:97-104 | an aged ripple still covers what it covered |
| Ripples.RippleLifetime | C/eventDriven/optimisedRipplePixels.cpp:75-115 | n agings leave a ripple n wider and n frames shorter; a fresh ripple still has frames left after n agings exactly when n < RIPPLE_DURATION |
| Ripples.Started | C/eventDriven/optimisedRipplePixels.cpp:75-76 | fresh ripples, one per cell, in order |
| Ripples.Room | C/eventDriven/optimisedRipplePixels.cpp:70-78 | the ripples that may still start keep the total at or below MAX_RIPPLES |
| Ripples.TakeSnoc | C/eventDriven/optimisedRipplePixels.cpp:74-78 | taking one more cell under a cap |
| Ripples.UncoveredKeeps | C/eventDriven/optimisedRipplePixels.cpp:101-110 | an LED no ripple covers keeps its timer |
| Ripples.LastRippleWins | C/eventDriven/optimisedRipplePixels.cpp:101-110 | the last ripple covering an LED sets its timer |
| Ripples.PaintedBounded | C/eventDriven/optimisedRipplePixels.cpp:107 | painted timers stay within 0..RIPPLE_DURATION |
| Ripples.Survivors | C/eventDriven/optimisedRipplePixels.cpp:113-115 | no ripple with duration <= 0 remains |
| Ripples.SurvivorsExact | C/eventDriven/optimisedRipplePixels.cpp:113-115 | a ripple survives exactly when it is in the list with frames left |
| Ripples.RippleWall.constructor | C/eventDriven/optimisedRipplePixels.cpp:162-163 | no ripples; every timer 0 |
| Ripples.RippleWall.DetectMovement | C/eventDriven/optimisedRipplePixels.cpp:62-81 | a fresh ripple starts on each moving LED in scan order until MAX_RIPPLES are active, never beyond |
| Ripples.RippleWall.DetectRow | C/eventDriven/optimisedRipplePixels.cpp:73-80 | the inner loop of detect_movement |
| Ripples.RippleWall.StartAt | C/eventDriven/optimisedRipplePixels.cpp:74-79 | one guarded push |
| Ripples.RippleWall.UpdateRippleEffects | C/eventDriven/optimisedRipplePixels.cpp:96-116 | every ripple ages; each LED's timer is what the ripples paint in turn; exactly the ripples with frames left remain |
| Ripples.RippleWall.AgeAndPaint | C/eventDriven/optimisedRipplePixels.cpp:97-111 | the loop over the ripples |
| Ripples.RippleWall.PaintLoop | C/eventDriven/optimisedRipplePixels.cpp:101-110 | one ripple paints every LED it covers |
| Ripples.RippleWall.UpdateLedStates | C/eventDriven/optimisedRipplePixels.cpp:118-128 | only positive timers count down |
| Ripples.RippleWall.Frame | C/eventDriven/optimisedRipplePixels.cpp:183-195 | the ripples become the survivors of the aged list with the capped new ripples appended; each timer is the painted value ticked once; the cap is kept |
| Ripples.AgedAll | C/eventDriven/optimisedRipplePixels.cpp:97-99 | every ripple ages once |
| FallingSand.Spawned | C/openCVexamples/videoArrayExamples/video2Array_fallinSand_noFloat.c:56-60 | new falling pixels with SETTLE_DURATION, one per cell |
| FallingSand.Fall | C/openCVexamples/videoArrayExamples/video2Array_fallinSand_noFloat.c:71-85 | a pixel drops a row exactly when it is above the bottom and the cell below holds no sand; otherwise its cell becomes sand with timer SETTLE_DURATION and it stops |
| FallingSand.FallAll | C/openCVexamples/videoArrayExamples/video2Array_fallinSand_noFloat.c:71-86 | the pixel loop in list order keeps positions on the wall and the sand grid binary |
| FallingSand.Airborne | C/openCVexamples/videoArrayExamples/video2Array_fallinSand_noFloat.c:89-91 | the pixels remove_if keeps, in order: every one is still falling and came from the list |
| FallingSand.AirborneExact | C/openCVexamples/videoArrayExamples/video2Array_fallinSand_noFloat.c:89-91 | a pixel is kept exactly when it was in the list with settle_frames > 0 |
| FallingSand.SandLasts | C/openCVexamples/videoArrayExamples/video2Array_fallinSand_noFloat.c:94-102 | sand whose timer is t stays sand for exactly t countdown passes, then is cleared with timer 0 |
| FallingSand.SandWall.constructor | C/openCVexamples/videoArrayExamples/video2Array_fallinSand_noFloat.c:151-153 | no pixels, and no sand |
| FallingSand.SandWall.DetectAndFloat | C/openCVexamples/videoArrayExamples/video2Array_fallinSand_noFloat.c:51-67 | a new pixel on each red cell in scan order, at most MAX_NEW_FLOATING_PIXELS per call |
| FallingSand.SandWall.ScanRow | C/openCVexamples/videoArrayExamples/video2Array_fallinSand_noFloat.c:53-66 | the inner loop, and the early return at the cap |
| FallingSand.SandWall.FloatAt | C/openCVexamples/videoArrayExamples/video2Array_fallinSand_noFloat.c:55-64 | one push, or the return at the cap |
| FallingSand.SandWall.Update | C/openCVexamples/videoArrayExamples/video2Array_fallinSand_noFloat.c:70-103 | fall in list order, remove the settled pixels, then count the sand down |
| FallingSand.SandWall.FallLoop | C/openCVexamples/videoArrayExamples/video2Array_fallinSand_noFloat.c:71-86 | the pixel loop |
| FallingSand.SandWall.FallOne | C/openCVexamples/videoArrayExamples/video2Array_fallinSand_noFloat.c:72-85 | the loop body for one pixel |
| FallingSand.SandWall.CountdownLoop | C/openCVexamples/videoArrayExamples/video2Array_fallinSand_noFloat.c:94-102 | sand cells lose a frame and are cleared at <= 0; the rest are untouched |
| HandModes.RaisedAmong | Ellie_connected_v3/modeSelection/modeSelect_handControl.py:117-119 | at most one per finger pair |
| HandModes.FingersUpExtremes | Ellie_connected_v3/modeSelection/modeSelect_handControl.py:110-120 | at most 5; 5 exactly when every finger is out; 0 exactly when none is; at most 4 for a label other than Left or Right |
| HandModes.CountForHand | Ellie_connected_v3/modeSelection/modeSelect_handControl.py:110-120 | _count_for_hand returns the finger count, in 0..5 |
| HandModes.TotalFingersBounded | Ellie_connected_v3/modeSelection/modeSelect_handControl.py:99-107 | the total lies between 0 and five per hand |
| HandModes.CountFingers | Ellie_connected_v3/modeSelection/modeSelect_handControl.py:99-107 | 0 without hands, otherwise the sum over the hands |
| HandModes.WriteRules | Ellie_connected_v3/modeSelection/modeSelect_handControl.py:38-48 | a newline moves to row+6 at column_start and draws nothing; at 50 characters the row wraps; an unknown character changes nothing; a known one advances the column by width+1 |
| HandModes.LayoutFacts | Ellie_connected_v3/modeSelection/modeSelect_handControl.py:33-48 | one glyph per character the font holds; the count never exceeds 50; the cursor never moves up or left of column_start |
| HandModes.PutText | Ellie_connected_v3/modeSelection/modeSelect_handControl.py:33-48 | the loop draws exactly the layout's glyphs |
| HandModes.Next | Ellie_connected_v3/modeSelection/modeSelect_handControl.py:153-163 | a mode is selected only for a count of 1..3 held with a truthy start time for more than 6 s; any other count resets the timer; a new count restarts it |
| HandModes.HeldSince | Ellie_connected_v3/modeSelection/modeSelect_handControl.py:153-163 | while a count is held, its start is the time of a frame from which every later frame showed it |
| HandModes.SelectionIsHeld | Ellie_connected_v3/modeSelection/modeSelect_handControl.py:153-157 | a selected mode was shown on every frame for more than 6 s |
| HandModes.ModeDwell.constructor | Ellie_connected_v3/modeSelection/modeSelect_handControl.py:129 | no count held and no start time |
| HandModes.ModeDwell.Observe | Ellie_connected_v3/modeSelection/modeSelect_handControl.py:153-163 | one frame of the dwell rule |
| HandModes.ModeDwell.Run | Ellie_connected_v3/modeSelection/modeSelect_handControl.py:135-176 | the loop returns the mode of the first frame the dwell rule selects on, with no earlier frame selecting and the dwell memory as that frame left it; or none, when no frame selects, with the memory after every frame |

## Left out

- Camera capture, OpenCV image operations, MediaPipe and PoseNet are left out; the movement masks, hand landmarks and hand positions they produce are parameters.
- Pygame, SDL and OpenCV drawing are left out, as are the downsampling to 20 x 20 and the game_array frames of brickPongForJetson.py and brickPong.py. Only the 20 x 20 frame of brickpongForJetson_v2.py is modelled.
- Threads, the named pipe writes in the LED demos, logging to files and the console, and key handling are left out.
- Random draws, `cos`/`sin` results and `time.time()` are parameters. This covers offsets, colours, spawn speeds, food positions and timestamps.
- Particle constructors take the velocity: the conversion of speed and direction through `cos`/`sin` is left out (trigonometry).
- Floating point: positions and velocities are `real`. The source's float32 and double rounding, and the uint8 colour arithmetic, are not modelled.
- Colours are modelled only where they decide something. The colour blending of the ripple demo (`startColor * ratio + ...`) is left out because it is floating-point numerics. As a result, ripples and LED states in `Ripples` carry no colours.
- gameSelector2.cpp's snake: the trig turning and the wall bounce of its head are left out (floating-point rotation). `Snakes.FreeSnake.Advance` takes the new head as a parameter.
- gameSelector2.cpp's brickPong: the floating ball's bounces are left out. Only the bar movement, the clamp and the brick layout are modelled.
- `Arena.Direction` folds the hand controller's `None`, `'none'`, `'up'` and `'down'` into `Still`, since `MovingBar.update` moves only on `'left'` and `'right'`.
- `Arena.Slide`: its on-screen guarantee assumes `speed >= 0`. Every bar in the sources has speed 20 or 1.
- `Arena.ListBlockPhase` and `Arena.UpdateTwice` require the main particle not to be one of the list particles. `Game.__init__` creates it apart from the list.
- `Emitters.Gone` treats a particle without a lifespan as never expiring. In Python `None <= 0` would raise, but every particle the emitters create has lifespan 300.
- `Basics.Without`: when the item is absent the list is returned unchanged. Python's `list.remove` would raise; every caller either guards with `in` or removes only present items.
- `HandModes.RaisedAmong`, `HandModes.CountForHand` and `HandModes.CountFingers` require 21 landmarks per hand. MediaPipe always delivers 21, and the source indexes landmarks up to 20.
- `HandModes.PutText` returns the glyph placements instead of writing them into a numpy frame. The font is a map from character to (width, height) in place of the CharacterLoader and its font files. The caller's `start` list, which the source mutates through `cursor` aliasing, is not modelled.
- The display call at line 169 of modeSelect_handControl.py is left out (rendering).
- `HandModes.ModeDwell.Run` models the frames the camera delivers as a finite sequence. Frames that fail to read and the Escape key are not modelled.
- LED grids are `seq<seq<int>>` reassigned as a whole in `Ripples` and `FallingSand`, and `array2` in `LedSelector`. The C++ `vector<vector<...>>` references are not modelled.
