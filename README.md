# CQInvaders gameplay engine in Dafny

This project models the integer gameplay engine of CQInvaders, a Space
Invaders clone. The engine lives in `src/CSpaceInvaders.h`. The repository
root holds an older copy, `CSpaceInvaders.h`, which has the same logic in
C++03 style: `std::for_each` instead of range loops, `needsIncRow()` and
`gameOver()` instead of `setNeedsIncRow()` and `setGameOver()`, and
constructor initialiser lists instead of member initialisers. One model
covers both copies. The table below cites whichever copy is clearer for
each member.

The model covers:

- the closed-rectangle overlap test and the centred bounding box of every sprite;
- the frame index of an image list;
- the alive flag and the four-tick explosion countdown;
- the two five-slot bullet pools;
- the alien formation: five row offsets, a direction and a speed counter shown in steps of four;
- the 55 aliens in three classes and the mystery alien;
- the player's ship: movement, fire cooldown and lives;
- the four bases of 2 x 4 cells, each cell taking four hits;
- the session, class `CSpaceInvaders`: init, the per-tick update, the input guards, the routing of each bullet to its targets, pause, next level and restart.

The project is organised in two layers.

- **Classes keep the source's mutable objects.** `Session.Game`, `Players.Player`, `Aliens.AlienManager`, `Aliens.Alien`, `Aliens.MysteryAlien`, `Bases.Base`, `Session.Score` and `Session.Level` hold the fields the C++ updates in place. The row offsets, the bullet pools and the cell grids are arrays.
- **A value view specifies them.** Each class method is specified by a pure function on that view: `AlienView`, `PlayerView`, `MysteryView`, `Formation`, `CellGrid`, and the whole-session value `GameState.World`. Each session-level operation of `Session.Game` ensures `State() == GameState.F(old(State()), ...)` for its function `F`. Most of these pairs share a name. The pairs that differ are `CheckAlienHit` and `AlienHit`, `CheckPlayerHit` and `ShootShip`, `CheckBaseHit` and `BaseHit`, `UpdateAlienShots` and `AlienShotPass`, and `UpdateMystery` and `MysteryStep`; the last one changes only the mystery alien's part of the state. The bullet-routing methods (`CheckAlienHit`, `ShootAliens`, `InterceptShot`, `ShootMystery`, `CheckBaseHit`, `CheckPlayerHit`) also return the bullet's new state, and their function returns the new session and the bullet together. The helper steps (`ShootOne`, `ShootFleet`, `ShootBase`, `ShootBases`, `SettlePlayerShot`, `SettleAlienShot`, `UpdateOne`, `UpdateStep`, `UpdateFleet`, `ResetOne`, `ResetEachAlien`, `ResetBase`, `ResetEachBase`, `ResetAliens`, `ResetBases`, `ResetManager`, `ResetMystery`, `ResetCounters`, `DrawOne`) state only part of the new state, such as the slice of the fleet or the array slot they change. The game's properties are lemmas about these functions in module `GameState`.

Behaviour of the C++ kept as written:

- `Level` starts at 1, and `reset` sets it back to 1. Nothing increments it, so the level is always 1.
- `restart` does not reset the mystery alien (`GameState.Restart` keeps it unchanged). `nextLevel` does reset it.
- `Base::checkHit` does not stop at the first cell. Every live cell whose sub-rectangle overlaps the bullet takes a hit. Every base is tested even after an earlier base has stopped the bullet, because `checkBaseHit` never checks the bullet's dead flag.
- An alien's `y` follows its row offset only when the alien is drawn (`Alien::draw`). The model carries `y` as a field, and only `Draw` (`GameState.SyncRows`) updates it.
- `AlienManager::reset` keeps the direction. New rows start at `60 * y + 110`, reset rows at `60 * y + 100`.
- Alien bullets can cost more than one life in a tick, so `lives` can drop below zero. Game over is set whenever a hit leaves `lives <= 0`.
- Several aliens can fire in one tick. Each request takes the lowest free slot; a request that finds all five slots taken is dropped.

Three kinds of random draw (`Util::random`) become inputs of the model:

- `fires[i]`: whether alien `i` fires this tick;
- `r`: the draw behind a mystery score;
- `spawn`: whether a dead mystery alien respawns.

## Model

| member | source | states |
|---|---|---|
| Geometry.OverlapsIffCommonPoint | src/CSpaceInvaders.h:29-34 | `overlaps` holds exactly when the two closed rectangles share a point, so it is false exactly when they are apart on some axis |
| Geometry.OverlapsSymmetric | CSpaceInvaders.h:22-27 | overlap is symmetric |
| Geometry.OverlapsReflexive | src/CSpaceInvaders.h:29-34 | a rectangle with ordered corners overlaps itself |
| Geometry.TouchingEdgesOverlap | CSpaceInvaders.h:22-27 | rectangles that only share an edge overlap (closed intervals) |
| Geometry.Box | src/CSpaceInvaders.h:101 | `Graphic::rect` has ordered corners, contains the centre, is symmetric about it and is no larger than `w x h` |
| Sprites.Sprite.Next | src/CSpaceInvaders.h:56 | `ImageList::next` keeps the index in `[0, max(1, size))`: it moves to index + 1, or wraps to 0 after the last frame |
| Sprites.Sprite.Reset | src/CSpaceInvaders.h:58 | reset shows the first frame |
| Sprites.NextIsModular | CSpaceInvaders.h:44 | on a non-empty list, next is addition modulo the number of frames |
| Sprites.AdvanceFromFirst | src/CSpaceInvaders.h:56-58 | from the first frame, n < size steps show frame n, and size steps come back to frame 0 |
| Explode.Life.Update | src/CSpaceInvaders.h:136-145 | an explosion counts down by one; the entity dies exactly when the count reaches 0; outside an explosion nothing changes |
| Explode.ExplosionLastsFourUpdates | CSpaceInvaders.h:104-128 | after `setExploding` a live entity stays alive and exploding, with count 4 - n, for three updates, and is dead with count 0 from the fourth on |
| Bullets.PlayerBulletFlight | src/CSpaceInvaders.h:196-213 | a player bullet climbs 32 pixels per update and is dead exactly once it has passed above y = 10 |
| Bullets.AlienBulletFlight | CSpaceInvaders.h:158-163 | an alien bullet falls 8 pixels per update and is dead exactly once it reaches the bottom of the screen |
| Bullets.FirstFree | src/CSpaceInvaders.h:871-872 | the slot firing takes is the lowest empty slot; every slot below it is taken; it is out of range exactly when the pool is full |
| Bullets.PlaceFillsOneSlot | src/CSpaceInvaders.h:988-994 | firing adds exactly one bullet unless the pool is full, changes only the lowest free slot, and puts the new bullet there |
| Bullets.Place | src/CSpaceInvaders.h:988-994 | a fire request keeps the pool's size and never replaces a bullet in flight; the pool is unchanged exactly when it is full |
| Bullets.OccupiedBounded | src/CSpaceInvaders.h:233-236 | a pool holds at most five bullets, and exactly five only when full |
| Bullets.FireAllAppend | src/CSpaceInvaders.h:982-995 | serving fire requests in two batches is the same as serving them together |
| Bullets.FireAllKeepsFlying | CSpaceInvaders.h:930-943 | fire requests never replace a bullet in flight, and each request adds one bullet until the pool is full, after which requests are dropped |
| Bullets.FirstOverlap | src/CSpaceInvaders.h:1003-1006 | the alien bullet a player bullet meets is the first one in slot order whose box overlaps it |
| Bullets.Intercept | CSpaceInvaders.h:945-964 | a live player bullet that overlaps an alien bullet removes only the first such one and dies; a dead or missing bullet changes nothing |
| Formations.Reset | src/CSpaceInvaders.h:239-250 | `AlienManager::reset` gives a well-formed formation from any formation moving left or right |
| Formations.DescentsShift | src/CSpaceInvaders.h:944-953 | after n descents every row is 24 * n lower, the speed counter is n higher and the direction has flipped n times |
| Formations.Descend | src/CSpaceInvaders.h:944-953 | one descent: every row is 24 pixels lower, the direction is reversed and the speed counter rises by one |
| Formations.DescendValid | src/CSpaceInvaders.h:944-953 | a descent keeps five rows, a direction of +1 or -1 and a speed of at least 8 |
| Formations.VisibleSpeedAfterDescents | src/CSpaceInvaders.h:239-260 | from `reset()`, the visible speed `speed_ / 4` after n descents is (8 + n) / 4 |
| Formations.DescendSpeedStep | src/CSpaceInvaders.h:940-957 | one descent raises the visible speed by zero or one |
| Aliens.TierOfRow | src/CSpaceInvaders.h:753-761 | row 0 aliens score 30, rows 1-2 score 20, rows 3-4 score 10 |
| Aliens.AlienView.Reset | src/CSpaceInvaders.h:311-317 | `Alien::reset`: alive, not exploding, back at x = 34 * (2 * col + 1), image counter 0; the rest is kept |
| Aliens.AlienView.Hit | src/CSpaceInvaders.h:1028-1030 | a hit alien starts exploding and can no longer be hit |
| Aliens.AlienView.Tick | src/CSpaceInvaders.h:1043-1070 | `Alien::update` on the alien itself: the countdown; a move by the formation step unless that leaves it dead; and, for a live alien, the image counter that shows the next frame every fourth tick |
| Aliens.MysteryScore | CSpaceInvaders.h:356-363 | `MysteryAlien::getScore` is always one of 100, 200, 300 and 400 |
| Aliens.MysteryScoreMonotone | src/CSpaceInvaders.h:394-401 | a larger draw never gives a smaller mystery score |
| Aliens.MysteryView.Tick | CSpaceInvaders.h:373-381 | `MysteryAlien::update`: the countdown, then 4 pixels left; it dies exactly when the countdown ends or it passes x = 0 |
| Aliens.MysteryView.Reset | src/CSpaceInvaders.h:403-409 | the reset mystery alien is dormant, not exploding, just past the right edge |
| Aliens.AlienManager.constructor | src/CSpaceInvaders.h:228-237 | the initial formation (direction 1, speed 8, rows 60 * y + 110) and five empty slots |
| Aliens.AlienManager.Reset | CSpaceInvaders.h:210-221 | speed 8, rows at 60 * y + 100, every alien bullet removed, direction kept |
| Aliens.AlienManager.PreUpdate | CSpaceInvaders.h:878-886 | the descent flag and the alive count are cleared |
| Aliens.AlienManager.PostUpdate | src/CSpaceInvaders.h:940-957 | a flagged descent moves every row down by 24, flips the direction and raises the speed by one; it reports when no alien was alive |
| Aliens.AlienManager.Fire | src/CSpaceInvaders.h:982-995 | new pool = the old pool with the shot 24 pixels below the alien in the lowest free slot, or unchanged when full |
| Aliens.AlienManager.Settle | src/CSpaceInvaders.h:974-978 | slot i holds the updated bullet, or is emptied when that bullet is dead; the other slots are unchanged |
| Aliens.AlienManager.CheckHit | src/CSpaceInvaders.h:997-1016 | pool and bullet after `checkHit` are as `Intercept` gives them |
| Aliens.Alien.constructor | src/CSpaceInvaders.h:300-305 | a new alien is alive at its given place with image counter 4 |
| Aliens.Alien.Reset | CSpaceInvaders.h:281-287 | the alien after `reset` is `AlienView.Reset` of the old one |
| Aliens.Alien.Draw | src/CSpaceInvaders.h:321-325 | drawing sets the alien's y to its row's offset and changes nothing else |
| Aliens.Alien.Update | CSpaceInvaders.h:987-1026 | the alien moves as `Tick`; only a hittable alien is counted alive, flags a descent at an edge, fires when its draw says so and reports an overrun below y = 900 |
| Aliens.Alien.Countdown | src/CSpaceInvaders.h:1043 | the alien's explosion state steps as `Explode.Life.Update` |
| Aliens.Alien.Live | src/CSpaceInvaders.h:1051-1078 | a hittable alien flags a descent exactly when it is at an edge, cycles its image every fourth tick, puts a shot 24 pixels below itself into the pool when it fires, counts itself alive, and reports an overrun exactly when its row is below y = 900 |
| Aliens.Alien.CheckHit | src/CSpaceInvaders.h:1020-1037 | a live bullet overlapping a live, non-exploding alien starts its explosion, earns the alien's score and dies; otherwise nothing changes |
| Aliens.MysteryAlien.constructor | src/CSpaceInvaders.h:383-392 | the mystery alien starts dormant at (0, 60) |
| Aliens.MysteryAlien.Reset | CSpaceInvaders.h:365-371 | as `MysteryView.Reset` |
| Aliens.MysteryAlien.Revive | src/CSpaceInvaders.h:748 | `setDead(false)` makes it alive and changes nothing else |
| Aliens.MysteryAlien.Update | src/CSpaceInvaders.h:411-420 | as `MysteryView.Tick` |
| Aliens.MysteryAlien.CheckHit | CSpaceInvaders.h:1030-1047 | a live bullet overlapping a hittable mystery alien starts its explosion, earns `MysteryScore(r)` and dies |
| Players.PlayerView.MoveLeft | src/CSpaceInvaders.h:492-498 | after `moveLeft` x >= w / 2; x moved 8 left unless clamped; y and everything else unchanged |
| Players.PlayerView.MoveRight | src/CSpaceInvaders.h:500-506 | after `moveRight` x <= 800 - w / 2 - 1; x moved 8 right unless clamped; y and everything else unchanged |
| Players.PlayerView.CoolDown | src/CSpaceInvaders.h:888 | the cooldown drops by one only while positive, so it stays within [0, 8] |
| Players.PlayerView.Reset | src/CSpaceInvaders.h:479-490 | alive, three lives, no cooldown, position kept |
| Players.Player.constructor | src/CSpaceInvaders.h:465-477 | three lives, no cooldown, five empty slots |
| Players.Player.Reset | CSpaceInvaders.h:437-448 | as `PlayerView.Reset`, with every bullet removed |
| Players.Player.MoveLeft | CSpaceInvaders.h:450-456 | as `PlayerView.MoveLeft` |
| Players.Player.MoveRight | CSpaceInvaders.h:458-464 | as `PlayerView.MoveRight` |
| Players.Player.Fire | src/CSpaceInvaders.h:865-882 | nothing changes while the cooldown runs or all five slots are taken; otherwise exactly the lowest empty slot gets a bullet at (x, y - h / 2), the cooldown becomes 8, and the other slots are unchanged |
| Players.Player.CoolDown | src/CSpaceInvaders.h:888 | as `PlayerView.CoolDown` |
| Players.Player.Settle | src/CSpaceInvaders.h:901-905 | a dead bullet's slot is emptied; a live one stays |
| Players.Player.CheckHit | CSpaceInvaders.h:857-875 | a live alien bullet overlapping the live ship costs exactly one life and dies; game over is reported exactly when that leaves lives <= 0; otherwise nothing changes |
| Bases.Cell.Hit | src/CSpaceInvaders.h:552 | a hit raises `ind` by one and the cell is dead once `ind` >= 4 |
| Bases.Cell.Reset | src/CSpaceInvaders.h:554 | an undamaged, live cell |
| Bases.CellLastsFourHits | CSpaceInvaders.h:509 | a new cell survives three hits and is dead at the fourth; its image follows the damage count |
| Bases.CellRect | src/CSpaceInvaders.h:624-643 | each cell's sub-rectangle is 22 x 29 |
| Bases.NeighbouringCellsTouch | src/CSpaceInvaders.h:630-645 | neighbouring cells share an edge, so one bullet on it hits both |
| Bases.AfterShot | src/CSpaceInvaders.h:641-651 | a struck live cell takes one hit; a dead or missed cell is unchanged |
| Bases.ShotGrid | src/CSpaceInvaders.h:623-654 | every cell is tested on its own sub-rectangle, and the grid stays well formed |
| Bases.ShotGridHitsStruckCells | src/CSpaceInvaders.h:623-654 | every struck live cell's `ind` rises by exactly one and every other cell's stays; a bullet that strikes no live cell leaves the grid as it was |
| Bases.ResetGrid | src/CSpaceInvaders.h:599-603 | every cell is reset |
| Bases.Base.constructor | src/CSpaceInvaders.h:560-597 | eight undamaged cells, each with four damage images |
| Bases.Base.Reset | CSpaceInvaders.h:556-560 | the cells after `reset` are `ResetGrid` of the old ones |
| Bases.Base.CheckHit | CSpaceInvaders.h:580-611 | the cells after `checkHit` are `ShotGrid` of the old ones, and the bullet dies if and only if some live cell was struck |
| GameState.InitialFleet | src/CSpaceInvaders.h:700-704 | alien i is column i % 11 of row i / 11, alive, at x = 34 * (2 * col + 1) and y = 60 * row + 110 |
| GameState.NewGame | src/CSpaceInvaders.h:688-705 | a new game is well formed, running, at score 0, level 1, three lives, every alien hittable and both pools empty |
| GameState.ResetFleet | src/CSpaceInvaders.h:839-840 | every alien reset: hittable and back at its home column |
| GameState.ResetBases | src/CSpaceInvaders.h:842-843 | every base's cells reset |
| GameState.NextLevel | CSpaceInvaders.h:767-776 | both flags cleared, every alien reset, formation reset to rows 60 * y + 100 and speed 8 with its direction kept, no alien bullets, mystery alien reset (dormant just past the right edge); player, lives, bases, score and level unchanged |
| GameState.Restart | src/CSpaceInvaders.h:827-846 | nothing while playing; otherwise both flags cleared, score 0, level 1, the player alive with three lives, no cooldown and its position kept, no bullets, every alien and cell undamaged, formation reset to rows 60 * y + 100 and speed 8 with its direction kept, mystery alien kept, nothing else changed |
| GameState.MoveShipLeft | src/CSpaceInvaders.h:767-771 | nothing while paused or over; otherwise only the ship's x changes, moving left and clamped at w / 2 |
| GameState.MoveShipRight | src/CSpaceInvaders.h:773-777 | nothing while paused or over; otherwise only the ship's x changes, moving right and clamped at 800 - w / 2 - 1 |
| GameState.ShipFire | CSpaceInvaders.h:731-735 | a bullet is fired exactly when the game runs, the cooldown is 0 and a slot is free; then exactly one bullet is added in the lowest free slot, the cooldown becomes 8, and no bullet in flight changes |
| GameState.Pause | src/CSpaceInvaders.h:807-809 | pause toggles the pause flag and nothing else |
| GameState.ShootAlien | src/CSpaceInvaders.h:1020-1037 | `Alien::checkHit` changes at most that one alien and never lowers the award |
| GameState.FirstStruck | src/CSpaceInvaders.h:786-787 | the first alien in list order that a bullet would hit |
| GameState.ShootFleetHitsFirst | src/CSpaceInvaders.h:785-787 | a bullet offered to the aliens in order hits only the first one it overlaps, which explodes and earns its score; a bullet that overlaps none changes nothing |
| GameState.ShootAliens | src/CSpaceInvaders.h:786-787 | only the aliens and the score change, and the score never falls |
| GameState.InterceptShot | src/CSpaceInvaders.h:789 | only the alien bullet pool changes, and it stays well formed |
| GameState.ShootMystery | src/CSpaceInvaders.h:791 | only the mystery alien and the score change, and the score never falls |
| GameState.AlienHit | src/CSpaceInvaders.h:785-792 | `checkAlienHit` changes only the aliens, the alien bullets, the mystery alien and the score, and the score never falls |
| GameState.DeadBulletHitsNothing | src/CSpaceInvaders.h:1024 | a dead bullet changes nothing in `checkAlienHit` |
| GameState.AlienHitFirstAlien | src/CSpaceInvaders.h:1020-1037 | a live bullet overlapping some alien is spent on the first one; the alien bullets and the mystery alien are spared |
| GameState.AlienHitAlienBullet | src/CSpaceInvaders.h:997-1016 | a bullet that misses every alien is spent on the first alien bullet it overlaps, which is removed |
| GameState.AlienHitMystery | src/CSpaceInvaders.h:1083-1100 | a bullet that misses every alien and alien bullet hits the mystery alien when it overlaps it; otherwise nothing changes |
| GameState.AlienHitValid | CSpaceInvaders.h:737-744 | `checkAlienHit` keeps the session well formed |
| GameState.AlienHitOneAward | src/CSpaceInvaders.h:785-792 | one `checkAlienHit` earns at most one award (0 to 400 points), and only by spending a live bullet |
| GameState.ShootBase | src/CSpaceInvaders.h:800 | one base's `checkHit` changes only that base and the bullet's dead flag |
| GameState.ShootBases | src/CSpaceInvaders.h:799-800 | the loop over the bases changes only the bases and the bullet's dead flag |
| GameState.ShootBasesEach | CSpaceInvaders.h:750-753 | every base is tested against the same bullet box, even after an earlier one has stopped it; the bullet dies exactly when some live cell of some base was struck |
| GameState.BaseHit | src/CSpaceInvaders.h:798-801 | `checkBaseHit` applies `ShotGrid` to every base, keeps them well formed, and kills the bullet exactly when some live cell was struck |
| GameState.ShootShip | src/CSpaceInvaders.h:909-927 | a hit costs exactly one life and kills the bullet; game over is set exactly when that leaves lives <= 0; otherwise nothing changes |
| GameState.PlayerHits | src/CSpaceInvaders.h:895-899 | a flying player bullet is tested against the aliens, then against the bases unless it has died; this changes only the aliens, alien bullets, mystery alien, bases and score |
| GameState.PlayerSlot | src/CSpaceInvaders.h:890-906 | one slot of `Player::update` changes only that slot; an empty slot changes nothing; the slot never holds a dead bullet afterwards |
| GameState.PlayerPass | src/CSpaceInvaders.h:890-906 | empty slots stay empty and the score never falls |
| GameState.PlayerHitsValid | src/CSpaceInvaders.h:895-899 | the hit tests of a player bullet keep the session well formed |
| GameState.PlayerSlotValid | src/CSpaceInvaders.h:901-905 | one slot's update keeps the session well formed, so no dead bullet stays in a slot |
| GameState.PlayerPassValid | CSpaceInvaders.h:832-855 | the whole loop keeps the session well formed |
| GameState.PlayerSlotScore | src/CSpaceInvaders.h:895-896 | one player bullet earns at most one award per tick |
| GameState.PlayerPassScore | src/CSpaceInvaders.h:884-907 | n slots earn at most n awards per tick |
| GameState.UpdatePlayer | src/CSpaceInvaders.h:884-907 | `Player::update` lowers the cooldown only while positive, keeps empty slots empty, never lowers the score and leaves the ship itself as it was |
| GameState.TickFleet | src/CSpaceInvaders.h:735-736 | the first n aliens are updated by the step, the rest unchanged |
| GameState.AlienPassCount | src/CSpaceInvaders.h:1075 | the alive count rises by the number of hittable aliens |
| GameState.Report | src/CSpaceInvaders.h:1047-1078 | a hittable alien adds one to the alive count, flags a descent exactly when its moved position is at an edge, and reports an overrun exactly when its row is below y = 900; a dead or exploding alien adds nothing; the pool keeps its size |
| GameState.AlienPass | src/CSpaceInvaders.h:735-736 | the reports of the first n aliens in list order; the pool keeps its size, and `AlienPassCount`, `AlienPassEdge`, `AlienPassOverrun` and `AlienPassShots` state what the reports add up to |
| GameState.AlienPassEdge | src/CSpaceInvaders.h:1051-1062 | a descent is flagged exactly when some hittable alien is at an edge after its move |
| GameState.AlienPassOverrun | src/CSpaceInvaders.h:1077-1078 | game over is raised exactly when some hittable alien is in a row below y = 900 |
| GameState.ReportShots | src/CSpaceInvaders.h:1072-1073 | one alien's shot goes into the pool as a fire request |
| GameState.AlienPassShots | src/CSpaceInvaders.h:735-736 | the aliens' shots are served in list order |
| GameState.AlienPassValid | src/CSpaceInvaders.h:982-995 | the alien bullet pool stays well formed through the pass |
| GameState.UpdateAliens | src/CSpaceInvaders.h:733-736 | `preUpdate` and the alien loop change only the aliens, the counters, the alien bullets and the game-over flag |
| GameState.UpdateAliensSummary | src/CSpaceInvaders.h:733-736 | every alien moves by the step, the alive count is the number of hittable aliens, a descent is flagged exactly at an edge, game over exactly on an overrun, and the shots are served in list order |
| GameState.UpdateAliensValid | CSpaceInvaders.h:686-688 | a tick of the aliens keeps the session well formed |
| GameState.PostUpdate | src/CSpaceInvaders.h:940-957 | the rows move by one descent when flagged; with no alien alive, `nextLevel` follows; the player, the bases and the score are unchanged |
| GameState.AlienHits | src/CSpaceInvaders.h:968-972 | a falling alien bullet is tested against the ship, then the bases unless it has died; this costs at most one life, and game over is set exactly when a life is lost and none remain |
| GameState.AlienSlot | src/CSpaceInvaders.h:963-979 | one slot of `AlienManager::update` changes only that slot, the lives, the bases and the game-over flag; an empty slot changes nothing |
| GameState.AlienSlotValid | src/CSpaceInvaders.h:974-978 | one slot's update keeps the session well formed |
| GameState.AlienShotPass | CSpaceInvaders.h:907-928 | the alien bullets cost at most one life each, and game over is set exactly when a life was lost and none remain |
| GameState.AlienShotPassValid | src/CSpaceInvaders.h:959-980 | the pass keeps the session well formed |
| GameState.AlienShotPassIdle | src/CSpaceInvaders.h:963-964 | with no alien bullets the pass changes nothing |
| GameState.MysteryStep | src/CSpaceInvaders.h:742-750 | the mystery alien moves as `MysteryAlien::update`; a dead one respawns alive at the right edge exactly when the draw says so |
| GameState.Update | src/CSpaceInvaders.h:728-751 | nothing changes while paused or over; a tick never changes the level or the pause flag |
| GameState.UpdateValid | src/CSpaceInvaders.h:728-751 | a tick keeps the session well formed: cooldown in range, no dead bullet in any slot, every alien and cell valid |
| GameState.UpdateScoreAndLives | src/CSpaceInvaders.h:728-751 | in one tick the score never falls and rises by at most 5 awards, the ship loses at most 5 lives, and it does not move |
| GameState.UpdateClearsWave | src/CSpaceInvaders.h:955-956 | a tick that leaves no alien hittable starts the next wave: every alien is hittable at its home column, the rows and speed are reset, the game is not over and no alien bullet is left |
| GameState.UpdateKeepsWave | src/CSpaceInvaders.h:955-956 | the alive count is the number of hittable aliens, and while it is positive the wave goes on |
| GameState.SyncRows | src/CSpaceInvaders.h:321-325 | every alien's y is set to its row's offset and nothing else changes |
| GameState.Draw | src/CSpaceInvaders.h:707-726 | drawing changes only the aliens' y |
| Session.Score.constructor | src/CSpaceInvaders.h:433-453 | a new score is 0 |
| Session.Score.Add | src/CSpaceInvaders.h:437 | `add` raises the score by the award |
| Session.Score.Reset | CSpaceInvaders.h:407-409 | `reset` sets the score to 0 |
| Session.Level.constructor | src/CSpaceInvaders.h:664-677 | a new level is 1 |
| Session.Level.Reset | src/CSpaceInvaders.h:674 | `reset` sets the level to 1 |
| Session.IndexOfCell | src/CSpaceInvaders.h:700-704 | the alien added for column x of row y sits at index 11 * y + x |
| Session.Game.constructor | src/CSpaceInvaders.h:688-705 | `init` builds `NewGame()`: a well-formed session with fresh objects |
| Session.Game.AddBases | src/CSpaceInvaders.h:697-698 | four fresh, well-formed bases with separate grids, base j at x = 98 * (2 * j + 1) on y = 840, every cell undamaged |
| Session.Game.AddRow | src/CSpaceInvaders.h:701-703 | eleven fresh aliens for row y, column j's view equal to entry 11 * y + j of the initial fleet |
| Session.Game.AddAliens | src/CSpaceInvaders.h:700-704 | 55 fresh aliens in row-major order, alien j in column j mod 11 of row j / 11, its view equal to entry j of the initial fleet |
| Session.Game.ShootOne | src/CSpaceInvaders.h:786-787 | as `GameState.ShootAlien` on alien i |
| Session.Game.ShootFleet | src/CSpaceInvaders.h:786-787 | as `GameState.ShootFleet` over every alien |
| Session.Game.ShootAliens | src/CSpaceInvaders.h:786-787 | as `GameState.ShootAliens` |
| Session.Game.InterceptShot | src/CSpaceInvaders.h:789 | as `GameState.InterceptShot` |
| Session.Game.ShootMystery | src/CSpaceInvaders.h:791 | as `GameState.ShootMystery` |
| Session.Game.CheckAlienHit | src/CSpaceInvaders.h:785-792 | as `GameState.AlienHit` |
| Session.Game.ShootBase | src/CSpaceInvaders.h:800 | base k's cells become `ShotGrid` of the old cells |
| Session.Game.ShootBases | src/CSpaceInvaders.h:799-800 | as `GameState.ShootBases` over every base |
| Session.Game.CheckBaseHit | src/CSpaceInvaders.h:798-801 | as `GameState.BaseHit` |
| Session.Game.CheckPlayerHit | src/CSpaceInvaders.h:794-796 | as `GameState.ShootShip` |
| Session.Game.PlayerSlot | src/CSpaceInvaders.h:891-905 | as `GameState.PlayerSlot` |
| Session.Game.SettlePlayerShot | src/CSpaceInvaders.h:901-905 | only slot i of the player's pool changes |
| Session.Game.UpdatePlayer | src/CSpaceInvaders.h:884-907 | as `GameState.UpdatePlayer` |
| Session.Game.UpdateOne | src/CSpaceInvaders.h:735-736 | alien i moves as `Tick` and the manager takes its report |
| Session.Game.UpdateFleet | src/CSpaceInvaders.h:735-736 | after the loop every alien has been updated in list order |
| Session.Game.UpdateStep | src/CSpaceInvaders.h:735-736 | one more alien updated in list order: the first i + 1 aliens are ticked, and the manager's count, descent flag, pool and the game-over flag match the first i + 1 reports |
| Session.Game.UpdateAliens | src/CSpaceInvaders.h:733-736 | as `GameState.UpdateAliens` |
| Session.Game.ResetOne | src/CSpaceInvaders.h:839-840 | alien i is reset and no other changes |
| Session.Game.ResetEachAlien | src/CSpaceInvaders.h:839-840 | the fleet becomes `ResetFleet` of the old one |
| Session.Game.ResetBase | src/CSpaceInvaders.h:842-843 | base k is reset and no other changes |
| Session.Game.ResetEachBase | src/CSpaceInvaders.h:842-843 | the bases become `ResetBases` of the old ones |
| Session.Game.ResetAliens | src/CSpaceInvaders.h:819-820 | only the fleet changes, to `ResetFleet` |
| Session.Game.ResetBases | src/CSpaceInvaders.h:842-843 | only the bases change, to `ResetBases` |
| Session.Game.ResetManager | src/CSpaceInvaders.h:822 | only the formation and the alien bullets change, as `AlienManager::reset` |
| Session.Game.ResetMystery | src/CSpaceInvaders.h:824 | only the mystery alien changes, to `MysteryView.Reset` |
| Session.Game.ResetCounters | src/CSpaceInvaders.h:830-837 | both flags, the level, the score and the player are reset |
| Session.Game.NextLevel | src/CSpaceInvaders.h:815-825 | as `GameState.NextLevel` |
| Session.Game.PostUpdate | src/CSpaceInvaders.h:738 | as `GameState.PostUpdate` |
| Session.Game.SettleAlienShot | src/CSpaceInvaders.h:974-978 | only slot i of the alien pool changes |
| Session.Game.AlienSlot | src/CSpaceInvaders.h:964-978 | as `GameState.AlienSlot` |
| Session.Game.UpdateAlienShots | src/CSpaceInvaders.h:959-980 | as `GameState.AlienShotPass` over the five slots |
| Session.Game.UpdateMystery | src/CSpaceInvaders.h:742-750 | only the mystery alien changes, as `MysteryStep` |
| Session.Game.Update | src/CSpaceInvaders.h:728-751 | as `GameState.Update` |
| Session.Game.Restart | src/CSpaceInvaders.h:827-846 | as `GameState.Restart` |
| Session.Game.DrawOne | src/CSpaceInvaders.h:714-715 | alien i's y is set to its row's offset |
| Session.Game.Draw | src/CSpaceInvaders.h:707-726 | as `GameState.Draw` |
| Session.Game.MoveShipLeft | src/CSpaceInvaders.h:767-771 | as `GameState.MoveShipLeft` |
| Session.Game.MoveShipRight | src/CSpaceInvaders.h:773-777 | as `GameState.MoveShipRight` |
| Session.Game.ShipFire | src/CSpaceInvaders.h:779-783 | as `GameState.ShipFire` |
| Session.Game.Pause | src/CSpaceInvaders.h:807-809 | as `GameState.Pause` |

## Left out

- Qt and host plumbing (`src/CQSpaceInvaders.cpp`, `src/CQSpaceInvaders.h`, `CQSpaceInvaders.h`): the widget, the 60 Hz timer and the key mapping are outside the engine.
- Rendering and audio: every `draw`, `ImageList::draw`, the `App` text, image and sound calls, and the image loading in constructors. Only the sprite frame index is kept. `Draw` models the one state change drawing makes, the alien's y.
- `Util::random`: each draw is an input of the model (`fires`, `r`, `spawn`). Its distribution is not modelled; only the thresholds 0.5, 0.8 and 0.95 in `getScore` are.
- 32-bit `int` arithmetic: Dafny integers are unbounded. Overflow would need a score or speed counter near 2^31, which the game cannot reach in practice.
- `new`/`delete` of bullets: each pool slot is an `Option<Bullet>` in a five-element array. The `alien_` and `player_` back-pointers are never used for logic and are not modelled.
- The calls back into the session (`invaders_->checkAlienHit`, `setGameOver`, `nextLevel`, `addScore`) are modelled as values returned to the caller at the same point in the sequence. For that reason `Player::update` and `AlienManager::update` are the session methods `Session.Game.UpdatePlayer` and `Session.Game.UpdateAlienShots`.
- The explosion image list and the fixed screen positions of the score and lives texts are drawing-only and not modelled.
- `html/invaders.js` is a separate browser port with floating-point speed and different constants; it is not part of this model.
- GameState.Update: its own contract states only the frozen case and that the level and pause flag never change; the properties of a running tick are the lemmas `UpdateValid`, `UpdateScoreAndLives`, `UpdateClearsWave` and `UpdateKeepsWave`.
- Bullets.Bullet.Update: its own contract states only that kind and x are kept and a dead bullet stays dead; the flight itself is stated by `PlayerBulletFlight` and `AlienBulletFlight`.
