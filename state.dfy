/** The whole state of a game session (class CSpaceInvaders and every object
    it owns) as one value, and every session operation as a function on
    it. The class Session.Game is specified against these functions; the
    properties of the game are proved here, about the functions. */
module GameState {
  import opened Geometry
  import opened Sprites
  import opened Explode
  import opened Bullets
  import opened Formations
  import opened Aliens
  import opened Players
  import opened Bases

  /** The formation is 11 columns by 5 rows. */
  const NUM_COLS: int := 11
  const NUM_ALIENS: int := 55
  const NUM_BASES: int := 4

  /** All four bases stand on the line y = 840. */
  const BASE_Y: int := 840


  /** The centre of the k-th base, 98 * (2 * k + 1). */
  function BaseX(k: int): int { 98 * (2 * k + 1) }

  /** The draw for alien i in one tick: does it fire (Util::random() < 0.01)?
      A missing draw counts as no. */
  function FiresAt(fires: seq<bool>, i: int): bool { 0 <= i < |fires| && fires[i] }

  datatype World = World(
    player: PlayerView,
    playerShots: Slots,
    fleet: seq<AlienView>,
    formation: Formation,
    numAlive: int,
    needsIncRow: bool,
    alienShots: Slots,
    mystery: MysteryView,
    bases: seq<CellGrid>,
    score: int,
    level: int,
    paused: bool,
    gameOver: bool)

  predicate FleetValid(fleet: seq<AlienView>) {
    |fleet| == NUM_ALIENS && forall i :: 0 <= i < |fleet| ==> fleet[i].Valid()
  }

  /** A bullet pool between two ticks: five slots, no dead bullet, one kind. */
  predicate PoolValid(s: Slots, k: Kind) {
    |s| == NUM_BULLETS && NoDead(s) && AllOfKind(s, k)
  }

  predicate BasesValid(bs: seq<CellGrid>) {
    |bs| == NUM_BASES && forall k :: 0 <= k < |bs| ==> GridValid(bs[k])
  }

  /** What holds of the session between any two operations. */
  predicate WorldValid(w: World) {
    0 <= w.player.fireBlock <= FIRE_BLOCK && PoolValid(w.playerShots, PlayerShot) &&
    FleetValid(w.fleet) && w.formation.Valid() && PoolValid(w.alienShots, AlienShot) &&
    w.mystery.life.Valid() && BasesValid(w.bases)
  }

  /** Input and updates are ignored while paused or after game over. */
  predicate Frozen(w: World) { w.paused || w.gameOver }

  // ---------------------------------------------------------------------
  // Creation and resets

  /** The aliens as CSpaceInvaders::init creates them, row by row: alien
      i is column i % 11 of row i / 11, alive, at (34 * (2 * x + 1),
      60 * y + 110) for column x and row y, image counter 4. */
  function InitialFleet(): (f: seq<AlienView>)
    ensures FleetValid(f)
    ensures forall i :: 0 <= i < |f| ==>
      f[i].col == i % NUM_COLS && f[i].row == i / NUM_COLS && f[i].Hittable() &&
      f[i].x == HomeX(f[i].col) && f[i].y == InitialRows()[f[i].row]
  {
    seq(NUM_ALIENS, i => AlienView(i % NUM_COLS, i / NUM_COLS, TierOfRow(i / NUM_COLS),
                                   HomeX(i % NUM_COLS), 60 * (i / NUM_COLS) + 110, Explode.Life(false, 0), 4, Frames(2)))
  }

  /** CSpaceInvaders::init: the player at (400, 950) with three lives, no
      bullets, the initial formation, a dormant mystery alien at (0, 60),
      four intact bases, score 0, level 1. */
  function NewGame(): (w: World)
    ensures WorldValid(w) && !Frozen(w)
    ensures w.score == 0 && w.level == 1 && w.player.lives == NUM_LIVES
    ensures forall i :: 0 <= i < |w.fleet| ==> w.fleet[i].Hittable()
    ensures w.playerShots == EmptySlots(NUM_BULLETS) && w.alienShots == EmptySlots(NUM_BULLETS)
  {
    World(PlayerView(400, 950, false, NUM_LIVES, 0), EmptySlots(NUM_BULLETS),
          InitialFleet(), Formations.Initial(), 0, false, EmptySlots(NUM_BULLETS),
          MysteryView(0, 60, Explode.Life(true, 0)),
          seq(NUM_BASES, _ => NewGrid()), 0, 1, false, false)
  }

  /** Alien::reset on every alien. */
  function ResetFleet(fleet: seq<AlienView>): (f: seq<AlienView>)
    ensures |f| == |fleet|
    ensures forall i :: 0 <= i < |f| ==> f[i].Hittable() && f[i].x == HomeX(fleet[i].col) && f[i] == fleet[i].Reset()
    ensures FleetValid(fleet) ==> FleetValid(f)
  {
    seq(|fleet|, i requires 0 <= i < |fleet| => fleet[i].Reset())
  }

  /** Base::reset on every base. */
  function ResetBases(bs: seq<CellGrid>): (r: seq<CellGrid>)
    ensures |r| == |bs| && forall k :: 0 <= k < |bs| ==> r[k] == ResetGrid(bs[k])
    ensures BasesValid(bs) ==> BasesValid(r)
  {
    seq(|bs|, k requires 0 <= k < |bs| => ResetGrid(bs[k]))
  }

  /** CSpaceInvaders::nextLevel: running again, every alien reset, the
      formation reset, every alien bullet removed, the mystery alien
      dormant. The player, the bases and the score carry over. */
  function NextLevel(w: World): (v: World)
    ensures !Frozen(v)
    ensures v == w.(paused := false, gameOver := false, fleet := v.fleet, formation := v.formation,
                    alienShots := v.alienShots, mystery := v.mystery)
    ensures |v.fleet| == |w.fleet| && v.formation.rowY == ResetRows() && v.formation.speed == BASE_SPEED
    ensures forall i :: 0 <= i < |v.fleet| ==> v.fleet[i].Hittable() && v.fleet[i] == w.fleet[i].Reset()
    ensures v.alienShots == EmptySlots(NUM_BULLETS)
    ensures v.formation == Formations.Reset(w.formation) && v.formation.dir == w.formation.dir
    ensures v.mystery == w.mystery.Reset()
    ensures WorldValid(w) ==> WorldValid(v)
  {
    w.(paused := false, gameOver := false, fleet := ResetFleet(w.fleet),
       formation := Formations.Reset(w.formation), alienShots := EmptySlots(NUM_BULLETS),
       mystery := w.mystery.Reset())
  }

  /** CSpaceInvaders::restart: only from a paused or finished game; then
      level 1, score 0, the player reset, every alien and base reset, the
      formation reset and every alien bullet removed. The mystery alien is
      left as it is. */
  function Restart(w: World): (v: World)
    ensures !Frozen(w) ==> v == w
    ensures Frozen(w) ==>
      !Frozen(v) && v.score == 0 && v.level == 1 &&
      v.player.lives == NUM_LIVES && v.player.fireBlock == 0 &&
      v.playerShots == EmptySlots(NUM_BULLETS) && v.alienShots == EmptySlots(NUM_BULLETS) &&
      v.bases == ResetBases(w.bases) && v.mystery == w.mystery && |v.fleet| == |w.fleet| &&
      forall i :: 0 <= i < |v.fleet| ==> v.fleet[i].Hittable() && v.fleet[i] == w.fleet[i].Reset()
    ensures Frozen(w) ==>
      (v == w.(paused := false, gameOver := false, level := 1, score := 0, player := v.player,
               playerShots := v.playerShots, fleet := v.fleet, bases := v.bases,
               formation := v.formation, alienShots := v.alienShots) &&
       v.player == w.player.Reset() && !v.player.dead &&
       v.player.x == w.player.x && v.player.y == w.player.y &&
       v.formation == Formations.Reset(w.formation) && v.formation.rowY == ResetRows() &&
       v.formation.speed == BASE_SPEED && v.formation.dir == w.formation.dir)
    ensures WorldValid(w) ==> WorldValid(v)
  {
    if !w.paused && !w.gameOver then w
    else
      w.(paused := false, gameOver := false, level := 1, score := 0,
         player := w.player.Reset(), playerShots := EmptySlots(NUM_BULLETS),
         fleet := ResetFleet(w.fleet), bases := ResetBases(w.bases),
         formation := Formations.Reset(w.formation), alienShots := EmptySlots(NUM_BULLETS))
  }

  // ---------------------------------------------------------------------
  // Input

  /** CSpaceInvaders::moveShipLeft. */
  function MoveShipLeft(w: World): (v: World)
    ensures Frozen(w) ==> v == w
    ensures v == w.(player := w.player.(x := v.player.x))
    ensures !Frozen(w) ==>
      v.player.x >= PLAYER_WIDTH / 2 &&
      (v.player.x == w.player.x - PLAYER_STEP || v.player.x == PLAYER_WIDTH / 2)
    ensures WorldValid(w) ==> WorldValid(v)
  {
    if Frozen(w) then w else w.(player := w.player.MoveLeft())
  }

  /** CSpaceInvaders::moveShipRight. */
  function MoveShipRight(w: World): (v: World)
    ensures Frozen(w) ==> v == w
    ensures v == w.(player := w.player.(x := v.player.x))
    ensures !Frozen(w) ==>
      v.player.x <= SCREEN_WIDTH - PLAYER_WIDTH / 2 - 1 &&
      (v.player.x == w.player.x + PLAYER_STEP || v.player.x == SCREEN_WIDTH - PLAYER_WIDTH / 2 - 1)
    ensures WorldValid(w) ==> WorldValid(v)
  {
    if Frozen(w) then w else w.(player := w.player.MoveRight())
  }

  /** CSpaceInvaders::shipFire and Player::fire: refused while frozen,
      while the cooldown runs or with all five slots taken; otherwise one
      new bullet at the ship's top edge in the lowest free slot, and the
      cooldown restarts. A bullet in flight is never replaced. */
  function ShipFire(w: World): (v: World)
    ensures v == w.(player := v.player, playerShots := v.playerShots)
    ensures |v.playerShots| == |w.playerShots|
    ensures var fired := !Frozen(w) && w.player.fireBlock <= 0 && !Full(w.playerShots);
      (!fired ==> v == w) &&
      (fired ==> v.player == w.player.(fireBlock := FIRE_BLOCK) &&
                 v.playerShots[FirstFree(w.playerShots)] == Some(PlayerBullet(w.player))) &&
      Occupied(v.playerShots) == Occupied(w.playerShots) + (if fired then 1 else 0)
    ensures forall j :: 0 <= j < |w.playerShots| && w.playerShots[j].Some? ==> v.playerShots[j] == w.playerShots[j]
    ensures WorldValid(w) ==> WorldValid(v)
  {
    if Frozen(w) || w.player.fireBlock > 0 || Full(w.playerShots) then w
    else
      PlaceFillsOneSlot(w.playerShots, PlayerBullet(w.player));
      w.(player := w.player.(fireBlock := FIRE_BLOCK), playerShots := Place(w.playerShots, PlayerBullet(w.player)))
  }

  /** CSpaceInvaders::pause: toggles the pause flag and nothing else. */
  function Pause(w: World): (v: World)
    ensures v.paused != w.paused && v == w.(paused := v.paused)
  {
    w.(paused := !w.paused)
  }

  // ---------------------------------------------------------------------
  // Bullets meeting their targets

  /** A player bullet on its way along the alien list, the aliens as it
      has left them, and the points it has earned so far. */
  datatype Volley = Volley(fleet: seq<AlienView>, bullet: Bullet, award: int)

  /** Alien::checkHit on alien i. */
  function ShootAlien(v: Volley, i: int): (u: Volley)
    requires 0 <= i < |v.fleet|
    ensures |u.fleet| == |v.fleet| && u.fleet == v.fleet[i := u.fleet[i]]
    ensures u.bullet == v.bullet.(dead := u.bullet.dead)
    ensures u.award >= v.award
    ensures FleetValid(v.fleet) ==> FleetValid(u.fleet)
  {
    var a := v.fleet[i];
    if HitsAlien(v.bullet, a) then Volley(v.fleet[i := a.Hit()], v.bullet.Kill(), v.award + a.tier.Score())
    else v
  }

  /** The loop of CSpaceInvaders::checkAlienHit over the first n aliens. */
  function ShootFleet(v: Volley, n: nat): (u: Volley)
    requires n <= |v.fleet|
    ensures |u.fleet| == |v.fleet|
    ensures u.bullet == v.bullet.(dead := u.bullet.dead)
    ensures u.award >= v.award
    ensures FleetValid(v.fleet) ==> FleetValid(u.fleet)
  {
    if n == 0 then v else ShootAlien(ShootFleet(v, n - 1), n - 1)
  }

  /** The lowest index among the first n aliens that bullet b would hit,
      or n when it would hit none of them. */
  function FirstStruck(fleet: seq<AlienView>, b: Bullet, n: nat): (k: nat)
    requires n <= |fleet|
    ensures k <= n
    ensures k < n ==> HitsAlien(b, fleet[k])
    ensures forall j :: 0 <= j < k ==> !HitsAlien(b, fleet[j])
  {
    if n == 0 then 0
    else if FirstStruck(fleet, b, n - 1) < n - 1 then FirstStruck(fleet, b, n - 1)
    else if HitsAlien(b, fleet[n - 1]) then n - 1
    else n
  }

  /** A bullet offered to the aliens in list order hits only the first
      alien it overlaps: that alien starts exploding and earns its score;
      the others, and a bullet that overlaps none, are unchanged. */
  lemma {:induction false} ShootFleetHitsFirst(fleet: seq<AlienView>, b: Bullet, n: nat)
    requires n <= |fleet|
    ensures var k := FirstStruck(fleet, b, n);
      ShootFleet(Volley(fleet, b, 0), n) ==
        if k < n then Volley(fleet[k := fleet[k].Hit()], b.Kill(), fleet[k].tier.Score())
        else Volley(fleet, b, 0)
  {
    if n > 0 {
      ShootFleetHitsFirst(fleet, b, n - 1);
    }
  }

  /** A bullet on its way through one of the session's hit tests, and the
      world it has changed so far. */
  datatype Outcome = Outcome(world: World, bullet: Bullet)

  /** The loop over the aliens of CSpaceInvaders::checkAlienHit, each award
      going to the score. */
  function ShootAliens(o: Outcome): (p: Outcome)
    ensures p.world == o.world.(fleet := p.world.fleet, score := p.world.score)
    ensures p.bullet == o.bullet.(dead := p.bullet.dead)
    ensures p.world.score >= o.world.score
    ensures FleetValid(o.world.fleet) ==> FleetValid(p.world.fleet)
  {
    var v := ShootFleet(Volley(o.world.fleet, o.bullet, 0), |o.world.fleet|);
    Outcome(o.world.(fleet := v.fleet, score := o.world.score + v.award), v.bullet)
  }

  /** AlienManager::checkHit on the alien bullets. */
  function InterceptShot(o: Outcome): (p: Outcome)
    ensures p.world == o.world.(alienShots := p.world.alienShots) && |p.world.alienShots| == |o.world.alienShots|
    ensures p.bullet == o.bullet.(dead := p.bullet.dead)
    ensures PoolValid(o.world.alienShots, AlienShot) ==> PoolValid(p.world.alienShots, AlienShot)
  {
    var (s, b) := Intercept(o.world.alienShots, o.bullet);
    Outcome(o.world.(alienShots := s), b)
  }

  /** MysteryAlien::checkHit, the score drawn from r. */
  function ShootMystery(o: Outcome, r: real): (p: Outcome)
    ensures p.world == o.world.(mystery := p.world.mystery, score := p.world.score)
    ensures p.bullet == o.bullet.(dead := p.bullet.dead)
    ensures p.world.score >= o.world.score
    ensures o.world.mystery.life.Valid() ==> p.world.mystery.life.Valid()
  {
    var m := o.world.mystery;
    if m.HitBy(o.bullet) then
      Outcome(o.world.(mystery := m.Hit(), score := o.world.score + MysteryScore(r)), o.bullet.Kill())
    else o
  }

  /** CSpaceInvaders::checkAlienHit: the aliens in list order, then the
      alien bullets, then the mystery alien, each test skipped once the
      bullet is dead. */
  function AlienHit(w: World, b: Bullet, r: real): (o: Outcome)
    ensures o.world == w.(fleet := o.world.fleet, alienShots := o.world.alienShots,
                          mystery := o.world.mystery, score := o.world.score)
    ensures o.bullet == b.(dead := o.bullet.dead)
    ensures o.world.score >= w.score && |o.world.alienShots| == |w.alienShots|
  {
    ShootMystery(InterceptShot(ShootAliens(Outcome(w, b))), r)
  }

  /** A dead bullet meets nothing. */
  lemma DeadBulletHitsNothing(w: World, b: Bullet, r: real)
    requires b.dead
    ensures AlienHit(w, b, r) == Outcome(w, b)
  {
    ShootFleetHitsFirst(w.fleet, b, |w.fleet|);
  }

  /** A live player bullet that overlaps some alien is spent on the first
      of them in list order: that alien starts exploding, its score is
      added, and nothing else changes (later aliens, the alien bullets and
      the mystery alien are spared). */
  lemma AlienHitFirstAlien(w: World, b: Bullet, r: real)
    requires !b.dead && FirstStruck(w.fleet, b, |w.fleet|) < |w.fleet|
    ensures var k := FirstStruck(w.fleet, b, |w.fleet|);
      AlienHit(w, b, r) == Outcome(w.(fleet := w.fleet[k := w.fleet[k].Hit()], score := w.score + w.fleet[k].tier.Score()), b.Kill())
  {
    ShootFleetHitsFirst(w.fleet, b, |w.fleet|);
  }

  /** A live player bullet that misses every alien is spent on the first
      alien bullet it overlaps, in slot order, which is removed. */
  lemma AlienHitAlienBullet(w: World, b: Bullet, r: real)
    requires !b.dead && FirstStruck(w.fleet, b, |w.fleet|) == |w.fleet|
    requires FirstOverlap(w.alienShots, b.Rect()) < |w.alienShots|
    ensures AlienHit(w, b, r) == Outcome(w.(alienShots := w.alienShots[FirstOverlap(w.alienShots, b.Rect()) := None]), b.Kill())
  {
    ShootFleetHitsFirst(w.fleet, b, |w.fleet|);
  }

  /** A live player bullet that misses every alien and every alien bullet
      hits the mystery alien when it overlaps it, scoring MysteryScore(r);
      otherwise it flies on and nothing changes. */
  lemma AlienHitMystery(w: World, b: Bullet, r: real)
    requires !b.dead && FirstStruck(w.fleet, b, |w.fleet|) == |w.fleet|
    requires FirstOverlap(w.alienShots, b.Rect()) == |w.alienShots|
    ensures AlienHit(w, b, r) ==
      if w.mystery.HitBy(b) then Outcome(w.(mystery := w.mystery.Hit(), score := w.score + MysteryScore(r)), b.Kill())
      else Outcome(w, b)
  {
    ShootFleetHitsFirst(w.fleet, b, |w.fleet|);
  }

  /** checkAlienHit keeps the session well formed. */
  lemma AlienHitValid(w: World, b: Bullet, r: real)
    requires WorldValid(w)
    ensures WorldValid(AlienHit(w, b, r).world)
  {
    var o1 := ShootAliens(Outcome(w, b));
    var o2 := InterceptShot(o1);
    assert WorldValid(o1.world);
    assert WorldValid(o2.world);
  }

  /** The largest award one hit can earn: the top mystery score. */
  const MAX_AWARD: int := 400

  /** checkAlienHit earns at most one award: nothing, or the score of the
      one target the bullet was spent on. */
  lemma AlienHitOneAward(w: World, b: Bullet, r: real)
    requires FleetValid(w.fleet)
    ensures var o := AlienHit(w, b, r); var d := o.world.score - w.score;
      0 <= d <= MAX_AWARD && (d > 0 ==> !b.dead && o.bullet.dead)
  {
    if b.dead {
      DeadBulletHitsNothing(w, b, r);
    } else if FirstStruck(w.fleet, b, |w.fleet|) < |w.fleet| {
      AlienHitFirstAlien(w, b, r);
    } else if FirstOverlap(w.alienShots, b.Rect()) < |w.alienShots| {
      AlienHitAlienBullet(w, b, r);
    } else {
      AlienHitMystery(w, b, r);
    }
  }

  /** Base::checkHit on base k. */
  function ShootBase(o: Outcome, k: int): (p: Outcome)
    requires 0 <= k < |o.world.bases|
    ensures |p.world.bases| == |o.world.bases| && p.world == o.world.(bases := o.world.bases[k := p.world.bases[k]])
    ensures p.bullet == o.bullet.(dead := p.bullet.dead)
  {
    var br := o.bullet.Rect();
    var g := o.world.bases[k];
    Outcome(o.world.(bases := o.world.bases[k := ShotGrid(g, BaseX(k), BASE_Y, br)]),
            o.bullet.(dead := o.bullet.dead || StruckGrid(g, BaseX(k), BASE_Y, br)))
  }

  /** The loop of CSpaceInvaders::checkBaseHit over the first n bases. */
  function ShootBases(o: Outcome, n: nat): (p: Outcome)
    requires n <= |o.world.bases|
    ensures p.world == o.world.(bases := p.world.bases)
    ensures |p.world.bases| == |o.world.bases|
    ensures p.bullet == o.bullet.(dead := p.bullet.dead)
  {
    if n == 0 then o else ShootBase(ShootBases(o, n - 1), n - 1)
  }

  /** Every base is tested against the same bullet box, whether or not an
      earlier base has already stopped the bullet: each of the first n
      bases takes the shot on its own cells, and the bullet dies when some
      live cell of one of them was struck. */
  lemma {:induction false} ShootBasesEach(o: Outcome, n: nat)
    requires n <= |o.world.bases|
    ensures var p := ShootBases(o, n); var br := o.bullet.Rect();
      (forall k :: 0 <= k < n ==> p.world.bases[k] == ShotGrid(o.world.bases[k], BaseX(k), BASE_Y, br)) &&
      (forall k :: n <= k < |o.world.bases| ==> p.world.bases[k] == o.world.bases[k]) &&
      (p.bullet.dead <==> o.bullet.dead || exists k :: 0 <= k < n && StruckGrid(o.world.bases[k], BaseX(k), BASE_Y, br))
  {
    if n > 0 {
      ShootBasesEach(o, n - 1);
      var q := ShootBases(o, n - 1);
      var br := o.bullet.Rect();
      assert q.bullet.Rect() == br && q.world.bases[n - 1] == o.world.bases[n - 1];
      var p := ShootBase(q, n - 1);
      assert ShootBases(o, n) == p;
      if StruckGrid(o.world.bases[n - 1], BaseX(n - 1), BASE_Y, br) {
        assert p.bullet.dead;
      }
    }
  }

  /** CSpaceInvaders::checkBaseHit. */
  function BaseHit(w: World, b: Bullet): (o: Outcome)
    ensures o.world == w.(bases := o.world.bases) && |o.world.bases| == |w.bases|
    ensures o.bullet == b.(dead := o.bullet.dead)
    ensures BasesValid(w.bases) ==> BasesValid(o.world.bases)
    ensures forall k :: 0 <= k < |w.bases| ==> o.world.bases[k] == ShotGrid(w.bases[k], BaseX(k), BASE_Y, b.Rect())
    ensures o.bullet.dead <==> b.dead || exists k :: 0 <= k < |w.bases| && StruckGrid(w.bases[k], BaseX(k), BASE_Y, b.Rect())
  {
    ShootBasesEach(Outcome(w, b), |w.bases|);
    ShootBases(Outcome(w, b), |w.bases|)
  }

  /** Player::checkHit: a hit costs the ship a life, and the game is over
      when the lives are used up. */
  function ShootShip(o: Outcome): (p: Outcome)
    ensures var hit := o.world.player.HitBy(o.bullet);
      p.world == o.world.(player := o.world.player.(lives := p.world.player.lives), gameOver := p.world.gameOver) &&
      p.world.player.lives == o.world.player.lives - (if hit then 1 else 0) &&
      p.bullet == (if hit then o.bullet.Kill() else o.bullet) &&
      (p.world.gameOver <==> o.world.gameOver || (hit && p.world.player.lives <= 0))
  {
    if o.world.player.HitBy(o.bullet) then
      var lives := o.world.player.lives - 1;
      Outcome(o.world.(player := o.world.player.(lives := lives), gameOver := o.world.gameOver || lives <= 0), o.bullet.Kill())
    else o
  }

  // ---------------------------------------------------------------------
  // The player's bullets (Player::update)

  /** The hit tests of a player bullet in flight: the aliens, then,
      unless it died there, the bases. */
  function PlayerHits(w: World, b: Bullet, r: real): (o: Outcome)
    ensures o.world == w.(fleet := o.world.fleet, alienShots := o.world.alienShots,
                          mystery := o.world.mystery, bases := o.world.bases, score := o.world.score)
    ensures o.bullet == b.(dead := o.bullet.dead)
    ensures o.world.score >= w.score && |o.world.alienShots| == |w.alienShots|
  {
    var o1 := if b.dead then Outcome(w, b) else AlienHit(w, b, r);
    if o1.bullet.dead then o1 else BaseHit(o1.world, o1.bullet)
  }

  /** Player::update's work on slot i: the bullet climbs, meets the aliens
      and then the bases unless it died on the way, and is removed once
      dead. */
  function PlayerSlot(w: World, i: int, r: real): (v: World)
    requires 0 <= i < |w.playerShots|
    ensures v == w.(playerShots := v.playerShots, fleet := v.fleet, alienShots := v.alienShots,
                    mystery := v.mystery, bases := v.bases, score := v.score)
    ensures |v.playerShots| == |w.playerShots| && v.playerShots == w.playerShots[i := v.playerShots[i]]
    ensures w.playerShots[i].None? ==> v == w
    ensures v.playerShots[i].Some? ==> !v.playerShots[i].value.dead
    ensures v.score >= w.score && |v.alienShots| == |w.alienShots|
  {
    match w.playerShots[i]
    case None => w
    case Some(b) =>
      var o := PlayerHits(w, b.Update(), r);
      o.world.(playerShots := w.playerShots[i := if o.bullet.dead then None else Some(o.bullet)])
  }

  /** The loop of Player::update over the first n slots. */
  function PlayerPass(w: World, r: real, n: nat): (v: World)
    requires n <= |w.playerShots|
    ensures v == w.(playerShots := v.playerShots, fleet := v.fleet, alienShots := v.alienShots,
                    mystery := v.mystery, bases := v.bases, score := v.score)
    ensures |v.playerShots| == |w.playerShots|
    ensures forall j :: 0 <= j < |w.playerShots| && w.playerShots[j].None? ==> v.playerShots[j].None?
    ensures v.score >= w.score && |v.alienShots| == |w.alienShots|
  {
    if n == 0 then w else PlayerSlot(PlayerPass(w, r, n - 1), n - 1, r)
  }

  /** The hit tests of a player bullet keep the session well formed. */
  lemma PlayerHitsValid(w: World, b: Bullet, r: real)
    requires WorldValid(w)
    ensures WorldValid(PlayerHits(w, b, r).world)
  {
    if !b.dead {
      AlienHitValid(w, b, r);
    }
  }

  /** Player::update's work on one slot keeps the session well formed. */
  lemma PlayerSlotValid(w: World, i: int, r: real)
    requires WorldValid(w) && 0 <= i < |w.playerShots|
    ensures WorldValid(PlayerSlot(w, i, r))
  {
    if w.playerShots[i].Some? {
      PlayerHitsValid(w, w.playerShots[i].value.Update(), r);
    }
  }

  lemma {:induction false} PlayerPassValid(w: World, r: real, n: nat)
    requires WorldValid(w) && n <= |w.playerShots|
    ensures WorldValid(PlayerPass(w, r, n))
  {
    if n > 0 {
      PlayerPassValid(w, r, n - 1);
      PlayerSlotValid(PlayerPass(w, r, n - 1), n - 1, r);
    }
  }

  /** One slot earns at most one award. */
  lemma PlayerSlotScore(w: World, i: int, r: real)
    requires WorldValid(w) && 0 <= i < |w.playerShots|
    ensures PlayerSlot(w, i, r).score <= w.score + MAX_AWARD
  {
    if w.playerShots[i].Some? {
      var b1 := w.playerShots[i].value.Update();
      if !b1.dead {
        AlienHitOneAward(w, b1, r);
      }
      assert PlayerHits(w, b1, r).world.score <= w.score + MAX_AWARD;
    }
  }

  /** So a pass over n slots earns at most n awards. */
  lemma {:induction false} PlayerPassScore(w: World, r: real, n: nat)
    requires WorldValid(w) && n <= |w.playerShots|
    ensures PlayerPass(w, r, n).score <= w.score + MAX_AWARD * n
  {
    if n > 0 {
      var u := PlayerPass(w, r, n - 1);
      PlayerPassScore(w, r, n - 1);
      PlayerPassValid(w, r, n - 1);
      PlayerSlotScore(u, n - 1, r);
      assert PlayerPass(w, r, n).score == PlayerSlot(u, n - 1, r).score;
    }
  }

  /** Player::update: the cooldown, then every slot in order. */
  function UpdatePlayer(w: World, r: real): (v: World)
    ensures v == w.(player := v.player, playerShots := v.playerShots, fleet := v.fleet,
                    alienShots := v.alienShots, mystery := v.mystery, bases := v.bases, score := v.score)
    ensures v.player == w.player.CoolDown() && |v.playerShots| == |w.playerShots|
    ensures forall j :: 0 <= j < |w.playerShots| && w.playerShots[j].None? ==> v.playerShots[j].None?
    ensures v.score >= w.score && |v.alienShots| == |w.alienShots|
  {
    PlayerPass(w.(player := w.player.CoolDown()), r, |w.playerShots|)
  }

  // ---------------------------------------------------------------------
  // The aliens (AlienManager::preUpdate, Alien::update, AlienManager::postUpdate)

  /** The row of alien a is below y = 900. */
  predicate Overrun(f: Formation, a: AlienView) {
    0 <= a.row < |f.rowY| && f.rowY[a.row] > OVERRUN_Y
  }

  /** The shot alien a makes in a step dx: one, 24 pixels below its moved
      position, when it is hittable and its draw says so. */
  function ShotOf(a: AlienView, dx: int, fire: bool): seq<Bullet> {
    if a.Hittable() && fire then [Shot(AlienShot, a.x + dx, a.y + 24)] else []
  }

  /** What the aliens report to their manager and to the session during
      one pass: the alive count, the descent flag, the manager's bullet
      pool, and whether some alien has reached the bottom (the C++ calls
      setGameOver for it). */
  datatype Tally = Tally(numAlive: int, needsIncRow: bool, shots: Slots, overrun: bool)

  /** The calls Alien::update of alien a makes under formation f: a live
      alien counts itself, flags a descent when its moved position is at
      an edge, fires when its draw says so, and reports an overrun when its
      row is below y = 900. A dead or exploding alien makes none. */
  function Report(t: Tally, a: AlienView, f: Formation, fire: bool): (u: Tally)
    ensures u.numAlive == t.numAlive + (if a.Hittable() then 1 else 0)
    ensures u.needsIncRow <==> t.needsIncRow || (a.Hittable() && AtEdge(a.x + f.Step()))
    ensures u.overrun <==> t.overrun || (a.Hittable() && Overrun(f, a))
    ensures |u.shots| == |t.shots|
  {
    if a.Hittable() then
      var a' := a.Tick(f.Step());
      Tally(t.numAlive + 1, t.needsIncRow || AtEdge(a'.x),
            if fire then Place(t.shots, Shot(AlienShot, a'.x, a'.y + 24)) else t.shots,
            t.overrun || Overrun(f, a))
    else t
  }

  /** The reports of the first n aliens in list order. Each alien is
      updated only in its own turn, so each report reads the alien as it
      was before the pass. */
  function AlienPass(fleet: seq<AlienView>, f: Formation, fires: seq<bool>, t: Tally, n: nat): (u: Tally)
    requires n <= |fleet|
    ensures |u.shots| == |t.shots|
  {
    if n == 0 then t else Report(AlienPass(fleet, f, fires, t, n - 1), fleet[n - 1], f, FiresAt(fires, n - 1))
  }

  /** The aliens after the first n of them have been updated by a step dx. */
  function TickFleet(fleet: seq<AlienView>, dx: int, n: nat): (r: seq<AlienView>)
    requires n <= |fleet|
    ensures |r| == |fleet|
    ensures forall j :: 0 <= j < n ==> r[j] == fleet[j].Tick(dx)
    ensures forall j :: n <= j < |fleet| ==> r[j] == fleet[j]
    ensures FleetValid(fleet) ==> FleetValid(r)
  {
    seq(|fleet|, j requires 0 <= j < |fleet| => if j < n then fleet[j].Tick(dx) else fleet[j])
  }

  /** How many of the first n aliens are hittable. */
  function CountLive(fleet: seq<AlienView>, n: nat): (c: nat)
    requires n <= |fleet|
    ensures c <= n
  {
    if n == 0 then 0 else CountLive(fleet, n - 1) + (if fleet[n - 1].Hittable() then 1 else 0)
  }

  /** Some hittable one of the first n aliens is at an edge after a step dx. */
  predicate ReachesEdge(fleet: seq<AlienView>, dx: int, n: nat)
    requires n <= |fleet|
  {
    exists j :: 0 <= j < n && fleet[j].Hittable() && AtEdge(fleet[j].x + dx)
  }

  /** Some hittable one of the first n aliens is in a row below y = 900. */
  predicate Overruns(fleet: seq<AlienView>, f: Formation, n: nat)
    requires n <= |fleet|
  {
    exists j :: 0 <= j < n && fleet[j].Hittable() && Overrun(f, fleet[j])
  }

  /** The shots of the first n aliens, in list order. */
  function FleetShots(fleet: seq<AlienView>, dx: int, fires: seq<bool>, n: nat): seq<Bullet>
    requires n <= |fleet|
  {
    if n == 0 then [] else FleetShots(fleet, dx, fires, n - 1) + ShotOf(fleet[n - 1], dx, FiresAt(fires, n - 1))
  }

  /** The alive count goes up by the number of hittable aliens. */
  lemma {:induction false} AlienPassCount(fleet: seq<AlienView>, f: Formation, fires: seq<bool>, t: Tally, n: nat)
    requires n <= |fleet|
    ensures AlienPass(fleet, f, fires, t, n).numAlive == t.numAlive + CountLive(fleet, n)
  {
    if n > 0 {
      AlienPassCount(fleet, f, fires, t, n - 1);
    }
  }

  /** A descent is flagged exactly when it was already, or when some
      hittable alien is at an edge after its step. */
  lemma {:induction false} AlienPassEdge(fleet: seq<AlienView>, f: Formation, fires: seq<bool>, t: Tally, n: nat)
    requires n <= |fleet|
    ensures AlienPass(fleet, f, fires, t, n).needsIncRow <==> t.needsIncRow || ReachesEdge(fleet, f.Step(), n)
  {
    if n > 0 {
      AlienPassEdge(fleet, f, fires, t, n - 1);
      var a := fleet[n - 1];
      if a.Hittable() {
        assert a.Tick(f.Step()).x == a.x + f.Step();
      }
    }
  }

  /** An overrun is reported exactly when it was already, or when some
      hittable alien is in a row below y = 900. */
  lemma {:induction false} AlienPassOverrun(fleet: seq<AlienView>, f: Formation, fires: seq<bool>, t: Tally, n: nat)
    requires n <= |fleet|
    ensures AlienPass(fleet, f, fires, t, n).overrun <==> t.overrun || Overruns(fleet, f, n)
  {
    if n > 0 {
      AlienPassOverrun(fleet, f, fires, t, n - 1);
    }
  }

  /** One alien's report serves its shot, if any, as FireAll does. */
  lemma ReportShots(t: Tally, a: AlienView, f: Formation, fire: bool)
    ensures Report(t, a, f, fire).shots == FireAll(t.shots, ShotOf(a, f.Step(), fire))
  {
    var b := ShotOf(a, f.Step(), fire);
    if b != [] {
      assert a.Tick(f.Step()).x == a.x + f.Step() && a.Tick(f.Step()).y == a.y;
      assert |b| == 1 && b[..0] == [];
    }
  }

  /** The shots of a pass go into the alien pool one after the other, in
      list order, as FireAll serves them. */
  lemma {:induction false} AlienPassShots(fleet: seq<AlienView>, f: Formation, fires: seq<bool>, t: Tally, n: nat)
    requires n <= |fleet|
    ensures AlienPass(fleet, f, fires, t, n).shots == FireAll(t.shots, FleetShots(fleet, f.Step(), fires, n))
  {
    if n > 0 {
      var u := AlienPass(fleet, f, fires, t, n - 1);
      var xs := FleetShots(fleet, f.Step(), fires, n - 1);
      var ys := ShotOf(fleet[n - 1], f.Step(), FiresAt(fires, n - 1));
      AlienPassShots(fleet, f, fires, t, n - 1);
      ReportShots(u, fleet[n - 1], f, FiresAt(fires, n - 1));
      FireAllAppend(t.shots, xs, ys);
      calc {
        AlienPass(fleet, f, fires, t, n).shots;
        Report(u, fleet[n - 1], f, FiresAt(fires, n - 1)).shots;
        FireAll(FireAll(t.shots, xs), ys);
        FireAll(t.shots, xs + ys);
      }
    }
  }

  /** Every report keeps the alien bullet pool well formed. */
  lemma {:induction false} AlienPassValid(fleet: seq<AlienView>, f: Formation, fires: seq<bool>, t: Tally, n: nat)
    requires n <= |fleet| && PoolValid(t.shots, AlienShot)
    ensures PoolValid(AlienPass(fleet, f, fires, t, n).shots, AlienShot)
  {
    if n > 0 {
      AlienPassValid(fleet, f, fires, t, n - 1);
      var u := AlienPass(fleet, f, fires, t, n - 1);
      var a := fleet[n - 1];
      PlaceFillsOneSlot(u.shots, Shot(AlienShot, a.Tick(f.Step()).x, a.Tick(f.Step()).y + 24));
    }
  }

  /** AlienManager::preUpdate followed by the loop of CSpaceInvaders::update
      over every alien: the count and the descent flag start afresh. */
  function UpdateAliens(w: World, fires: seq<bool>): (v: World)
    ensures v == w.(fleet := v.fleet, numAlive := v.numAlive, needsIncRow := v.needsIncRow,
                    alienShots := v.alienShots, gameOver := v.gameOver)
    ensures |v.alienShots| == |w.alienShots|
  {
    var t := AlienPass(w.fleet, w.formation, fires, Tally(0, false, w.alienShots, false), |w.fleet|);
    w.(fleet := TickFleet(w.fleet, w.formation.Step(), |w.fleet|), numAlive := t.numAlive,
       needsIncRow := t.needsIncRow, alienShots := t.shots, gameOver := w.gameOver || t.overrun)
  }

  /** One tick of the aliens moves every one of them by the formation's
      step, counts the hittable ones, flags a descent exactly when one of
      them reaches an edge, ends the game exactly when one of them is in a
      row below y = 900, and serves their shots in list order. */
  lemma UpdateAliensSummary(w: World, fires: seq<bool>)
    ensures var v := UpdateAliens(w, fires); var dx := w.formation.Step();
      |v.fleet| == |w.fleet| &&
      (forall j :: 0 <= j < |w.fleet| ==> v.fleet[j] == w.fleet[j].Tick(dx)) &&
      v.numAlive == CountLive(w.fleet, |w.fleet|) &&
      (v.needsIncRow <==> ReachesEdge(w.fleet, dx, |w.fleet|)) &&
      (v.gameOver <==> w.gameOver || Overruns(w.fleet, w.formation, |w.fleet|)) &&
      v.alienShots == FireAll(w.alienShots, FleetShots(w.fleet, dx, fires, |w.fleet|))
  {
    var t := Tally(0, false, w.alienShots, false);
    AlienPassCount(w.fleet, w.formation, fires, t, |w.fleet|);
    AlienPassEdge(w.fleet, w.formation, fires, t, |w.fleet|);
    AlienPassOverrun(w.fleet, w.formation, fires, t, |w.fleet|);
    AlienPassShots(w.fleet, w.formation, fires, t, |w.fleet|);
  }

  /** A tick of the aliens keeps the session well formed. */
  lemma UpdateAliensValid(w: World, fires: seq<bool>)
    requires WorldValid(w)
    ensures WorldValid(UpdateAliens(w, fires))
  {
    AlienPassValid(w.fleet, w.formation, fires, Tally(0, false, w.alienShots, false), |w.fleet|);
  }

  /** AlienManager::postUpdate: one descent when flagged, and
      CSpaceInvaders::nextLevel when no alien was alive this tick. */
  function PostUpdate(w: World): (v: World)
    ensures v.player == w.player && v.playerShots == w.playerShots && v.bases == w.bases
    ensures v.score == w.score && v.level == w.level && !v.needsIncRow
    ensures w.numAlive == 0 ==> v == NextLevel(w.(formation := v.formation, needsIncRow := false))
    ensures w.numAlive != 0 ==> v == w.(formation := v.formation, needsIncRow := false)
    ensures v.formation.rowY == (if w.numAlive == 0 then ResetRows()
                                 else if w.needsIncRow then Descend(w.formation).rowY else w.formation.rowY)
    ensures WorldValid(w) ==> WorldValid(v)
  {
    var w1 := if w.needsIncRow then w.(formation := Descend(w.formation), needsIncRow := false) else w;
    if w1.numAlive == 0 then NextLevel(w1) else w1
  }

  // ---------------------------------------------------------------------
  // The alien bullets (AlienManager::update)

  /** The hit tests of an alien bullet in flight: the ship, then, unless
      it died there, the bases. */
  function AlienHits(w: World, b: Bullet): (o: Outcome)
    ensures o.world == w.(player := o.world.player, bases := o.world.bases, gameOver := o.world.gameOver)
    ensures o.bullet == b.(dead := o.bullet.dead)
    ensures o.world.player == w.player.(lives := o.world.player.lives)
    ensures w.player.lives - 1 <= o.world.player.lives <= w.player.lives
    ensures o.world.gameOver <==> w.gameOver || (o.world.player.lives < w.player.lives && o.world.player.lives <= 0)
    ensures WorldValid(w) ==> WorldValid(o.world)
  {
    var o1 := if b.dead then Outcome(w, b) else ShootShip(Outcome(w, b));
    if o1.bullet.dead then o1 else BaseHit(o1.world, o1.bullet)
  }

  /** AlienManager::update's work on slot i: the bullet falls, meets the
      ship and then the bases unless it died on the way, and is removed
      once dead. */
  function AlienSlot(w: World, i: int): (v: World)
    requires 0 <= i < |w.alienShots|
    ensures v == w.(alienShots := v.alienShots, player := v.player, bases := v.bases, gameOver := v.gameOver)
    ensures |v.alienShots| == |w.alienShots| && v.alienShots == w.alienShots[i := v.alienShots[i]]
    ensures w.alienShots[i].None? ==> v == w
    ensures v.player == w.player.(lives := v.player.lives)
    ensures w.player.lives - 1 <= v.player.lives <= w.player.lives
    ensures v.gameOver <==> w.gameOver || (v.player.lives < w.player.lives && v.player.lives <= 0)
  {
    match w.alienShots[i]
    case None => w
    case Some(b) =>
      var o := AlienHits(w, b.Update());
      o.world.(alienShots := w.alienShots[i := if o.bullet.dead then None else Some(o.bullet)])
  }

  /** AlienManager::update's work on one slot keeps the session well formed. */
  lemma AlienSlotValid(w: World, i: int)
    requires WorldValid(w) && 0 <= i < |w.alienShots|
    ensures WorldValid(AlienSlot(w, i))
  {
    if w.alienShots[i].Some? {
      assert WorldValid(AlienHits(w, w.alienShots[i].value.Update()).world);
    }
  }

  /** The loop of AlienManager::update over the first n slots. Each alien
      bullet costs the ship at most one life, so the pass costs at most n;
      the game is over afterwards exactly when it was before, or when the
      ship lost a life and has none left. */
  function AlienShotPass(w: World, n: nat): (v: World)
    requires n <= |w.alienShots|
    ensures v == w.(alienShots := v.alienShots, player := v.player, bases := v.bases, gameOver := v.gameOver)
    ensures |v.alienShots| == |w.alienShots|
    ensures v.player == w.player.(lives := v.player.lives)
    ensures w.player.lives - n <= v.player.lives <= w.player.lives
    ensures v.gameOver <==> w.gameOver || (v.player.lives < w.player.lives && v.player.lives <= 0)
  {
    if n == 0 then w else AlienSlot(AlienShotPass(w, n - 1), n - 1)
  }

  lemma {:induction false} AlienShotPassValid(w: World, n: nat)
    requires WorldValid(w) && n <= |w.alienShots|
    ensures WorldValid(AlienShotPass(w, n))
  {
    if n > 0 {
      AlienShotPassValid(w, n - 1);
      AlienSlotValid(AlienShotPass(w, n - 1), n - 1);
    }
  }

  /** With no alien bullet in the first n slots, their pass changes
      nothing. */
  lemma {:induction false} AlienShotPassIdle(w: World, n: nat)
    requires n <= |w.alienShots| && forall j :: 0 <= j < n ==> w.alienShots[j].None?
    ensures AlienShotPass(w, n) == w
  {
    if n > 0 {
      AlienShotPassIdle(w, n - 1);
    }
  }

  // ---------------------------------------------------------------------
  // The tick (CSpaceInvaders::update) and drawing

  /** MysteryAlien::update, then the respawn CSpaceInvaders::update makes
      when the mystery alien is dead and its draw says so: reset, then
      alive at the right edge. */
  function MysteryStep(m: MysteryView, spawn: bool): (n: MysteryView)
    ensures m.life.Valid() ==> n.life.Valid()
    ensures n.y == m.y
    ensures m.Tick().life.dead && spawn ==>
      n.Hittable() && n.x == SCREEN_WIDTH + MYSTERY_WIDTH / 2
    ensures !(m.Tick().life.dead && spawn) ==> n == m.Tick()
  {
    var t := m.Tick();
    if t.life.dead && spawn then t.Reset().Revive() else t
  }

  /** CSpaceInvaders::update for one tick, given the draws of the tick:
      fires[i] for alien i, r for a mystery score, spawn for the mystery
      respawn. Nothing happens while paused or after game over; otherwise
      the player and its bullets, then every alien, then the manager's
      descent and level test, then the alien bullets, then the mystery
      alien. */
  function Update(w: World, fires: seq<bool>, r: real, spawn: bool): (v: World)
    ensures Frozen(w) ==> v == w
    ensures v.level == w.level && v.paused == w.paused
  {
    if Frozen(w) then w
    else
      var w1 := UpdatePlayer(w, r);
      var w2 := PostUpdate(UpdateAliens(w1, fires));
      var w3 := AlienShotPass(w2, |w2.alienShots|);
      w3.(mystery := MysteryStep(w3.mystery, spawn))
  }

  /** A tick keeps the session well formed. */
  lemma UpdateValid(w: World, fires: seq<bool>, r: real, spawn: bool)
    requires WorldValid(w)
    ensures WorldValid(Update(w, fires, r, spawn))
  {
    if !Frozen(w) {
      var w0 := w.(player := w.player.CoolDown());
      PlayerPassValid(w0, r, |w0.playerShots|);
      var w1 := UpdatePlayer(w, r);
      UpdateAliensValid(w1, fires);
      var w2 := PostUpdate(UpdateAliens(w1, fires));
      AlienShotPassValid(w2, |w2.alienShots|);
    }
  }

  /** Across a tick the score never falls and rises by at most one award
      per player bullet slot, the ship loses at most one life per alien
      bullet slot, and the ship's position does not change. */
  lemma UpdateScoreAndLives(w: World, fires: seq<bool>, r: real, spawn: bool)
    requires WorldValid(w)
    ensures var v := Update(w, fires, r, spawn);
      w.score <= v.score <= w.score + NUM_BULLETS * MAX_AWARD &&
      w.player.lives - NUM_BULLETS <= v.player.lives <= w.player.lives &&
      v.player.x == w.player.x && v.player.y == w.player.y
  {
    if !Frozen(w) {
      var w0 := w.(player := w.player.CoolDown());
      PlayerPassScore(w0, r, |w0.playerShots|);
      var w1 := UpdatePlayer(w, r);
      var w2 := PostUpdate(UpdateAliens(w1, fires));
    }
  }

  /** A tick in which no alien is left hittable once the player's bullets
      have flown starts the next wave: every alien is back at its post
      and hittable, the game is not over, and no alien bullet is left. */
  lemma UpdateClearsWave(w: World, fires: seq<bool>, r: real, spawn: bool)
    requires !Frozen(w)
    requires var w1 := UpdatePlayer(w, r);
      |w1.fleet| == NUM_ALIENS && CountLive(w1.fleet, |w1.fleet|) == 0
    ensures var v := Update(w, fires, r, spawn); var w1 := UpdatePlayer(w, r);
      |v.fleet| == |w1.fleet| &&
      (forall i :: 0 <= i < |v.fleet| ==> v.fleet[i].Hittable() && v.fleet[i].x == HomeX(w1.fleet[i].col)) &&
      v.formation.rowY == ResetRows() && v.formation.speed == BASE_SPEED &&
      !v.gameOver && v.alienShots == EmptySlots(NUM_BULLETS) && v.score == w1.score
  {
    var w1 := UpdatePlayer(w, r);
    UpdateAliensSummary(w1, fires);
    var w2 := PostUpdate(UpdateAliens(w1, fires));
    assert w2.alienShots == EmptySlots(NUM_BULLETS);
    AlienShotPassIdle(w2, |w2.alienShots|);
  }

  /** While some alien is still hittable, a tick does not start a new
      wave: the alive count is the number of hittable aliens. */
  lemma UpdateKeepsWave(w: World, fires: seq<bool>, r: real)
    requires !Frozen(w)
    ensures var w1 := UpdatePlayer(w, r); var w2 := UpdateAliens(w1, fires);
      w2.numAlive == CountLive(w1.fleet, |w1.fleet|) &&
      (w2.numAlive > 0 ==> PostUpdate(w2).fleet == w2.fleet)
  {
    UpdateAliensSummary(UpdatePlayer(w, r), fires);
  }

  /** Alien::draw on every alien: its y catches up with its row. */
  function SyncRows(fleet: seq<AlienView>, f: Formation): (r: seq<AlienView>)
    ensures |r| == |fleet|
    ensures forall i :: 0 <= i < |fleet| ==>
      r[i] == fleet[i].(y := r[i].y) &&
      (0 <= fleet[i].row < |f.rowY| ==> r[i].y == f.rowY[fleet[i].row])
    ensures FleetValid(fleet) ==> FleetValid(r)
  {
    seq(|fleet|, i requires 0 <= i < |fleet| =>
      var a := fleet[i];
      if 0 <= a.row < |f.rowY| then a.(y := f.rowY[a.row]) else a)
  }

  /** CSpaceInvaders::draw: only the alien positions change. */
  function Draw(w: World): (v: World)
    ensures v == w.(fleet := SyncRows(w.fleet, w.formation))
    ensures WorldValid(w) ==> WorldValid(v)
  {
    w.(fleet := SyncRows(w.fleet, w.formation))
  }
}
