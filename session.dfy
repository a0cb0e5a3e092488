/** The game session (class CSpaceInvaders) as objects: it owns the
    player, the score, the level, the alien manager, the 55 aliens, the
    mystery alien and the four bases, gates every update and input on the
    paused and game-over flags, and routes each bullet to its targets in a
    fixed order. Every method is specified against the function of the
    same name in GameState, applied to the session's value State(). */
module Session {
  import opened Geometry
  import opened Explode
  import opened Bullets
  import opened Formations
  import opened Aliens
  import opened Players
  import opened Bases
  import opened GameState

  /** Score: the points earned so far. */
  class Score {
    var value: int

    constructor ()
      ensures value == 0
    {
      value := 0;
    }

    /** Score::add. */
    method Add(i: int)
      modifies this
      ensures value == old(value) + i
    {
      value := value + i;
    }

    /** Score::reset. */
    method Reset()
      modifies this
      ensures value == 0
    {
      value := 0;
    }
  }

  /** Level: the level number, 1 from the start and after every reset;
      nothing in the game increments it. */
  class Level {
    var value: int

    constructor ()
      ensures value == 1
    {
      value := 1;
    }

    /** Level::reset. */
    method Reset()
      modifies this
      ensures value == 1
    {
      value := 1;
    }
  }

  /** Alien i of the list is column i % 11 of row i / 11. */
  lemma IndexOfCell(y: int, x: int)
    requires 0 <= y && 0 <= x < NUM_COLS
    ensures (NUM_COLS * y + x) % NUM_COLS == x && (NUM_COLS * y + x) / NUM_COLS == y
  {
  }

  class Game {
    const player: Player
    const score: Score
    const level: Level
    const mgr: AlienManager
    const aliens: seq<Alien>
    const mystery: MysteryAlien
    const bases: seq<Base>
    var paused: bool
    var gameOver: bool

    /** The cell grids of the bases. */
    ghost function Grids(): set<array2<Cell>>
    {
      set k | 0 <= k < |bases| :: bases[k].grid
    }

    /** The object structure: 55 aliens stored row by row, so that the
        i-th alien and the j-th are different objects; four bases at their
        places with distinct grids; two distinct bullet pools. */
    ghost predicate Wired()
    {
      |aliens| == NUM_ALIENS && |bases| == NUM_BASES &&
      (forall i :: 0 <= i < |aliens| ==> aliens[i].col + NUM_COLS * aliens[i].row == i) &&
      (forall k :: 0 <= k < |bases| ==> bases[k].x == BaseX(k) && bases[k].y == BASE_Y) &&
      (forall j, k :: 0 <= j < k < |bases| ==> bases[j].grid != bases[k].grid) &&
      player.bullets != mgr.bullets
    }

    /** The aliens, as values. */
    ghost function Fleet(): seq<AlienView>
      reads aliens
    {
      seq(|aliens|, i requires 0 <= i < |aliens| reads aliens => aliens[i].View())
    }

    /** The cells of the bases, as values. */
    ghost function Bases(): seq<CellGrid>
      reads Grids()
    {
      seq(|bases|, k requires 0 <= k < |bases| reads Grids() => bases[k].Cells())
    }

    /** The whole session as a value. */
    ghost function State(): World
      reads this, player, player.bullets, score, level, mgr, mgr.rowY, mgr.bullets, mystery, aliens, Grids()
    {
      World(player.View(), player.bullets[..], Fleet(), mgr.Formation(), mgr.numAlive, mgr.needsIncRow,
            mgr.bullets[..], mystery.View(), Bases(), score.value, level.value, paused, gameOver)
    }

    ghost predicate Valid()
      reads this, player, player.bullets, score, level, mgr, mgr.rowY, mgr.bullets, mystery, aliens, Grids()
    {
      Wired() && mgr.w == 2 * HALF_WIDTH && mgr.rowY.Length == NUM_ROWS &&
      (forall k :: 0 <= k < |bases| ==> bases[k].grid.Length0 == GRID_ROWS && bases[k].grid.Length1 == GRID_COLS) &&
      WorldValid(State())
    }

    /** The parts of a valid session are valid. */
    lemma PartsValid()
      requires Valid()
      ensures player.Valid() && mgr.Valid() && mystery.Valid()
      ensures forall i :: 0 <= i < |aliens| ==> aliens[i].Valid()
      ensures forall k :: 0 <= k < |bases| ==> bases[k].Valid()
    {
      assert forall i :: 0 <= i < |aliens| ==> Fleet()[i] == aliens[i].View();
      assert forall k :: 0 <= k < |bases| ==> Bases()[k] == bases[k].Cells();
    }

    /** The four addBase calls of CSpaceInvaders::init. */
    static method AddBases() returns (bs: seq<Base>)
      ensures |bs| == NUM_BASES
      ensures forall j :: 0 <= j < |bs| ==> fresh(bs[j]) && fresh(bs[j].grid) && bs[j].Valid()
      ensures forall j :: 0 <= j < |bs| ==> bs[j].x == BaseX(j) && bs[j].y == BASE_Y && bs[j].Cells() == NewGrid()
      ensures forall i, j :: 0 <= i < j < |bs| ==> bs[i].grid != bs[j].grid
    {
      bs := [];
      for k := 0 to NUM_BASES
        invariant |bs| == k
        invariant forall j :: 0 <= j < k ==> fresh(bs[j]) && fresh(bs[j].grid) && bs[j].Valid()
        invariant forall j :: 0 <= j < k ==> bs[j].x == BaseX(j) && bs[j].y == BASE_Y && bs[j].Cells() == NewGrid()
        invariant forall i, j :: 0 <= i < j < k ==> bs[i].grid != bs[j].grid
      {
        var b := new Base(BaseX(k), BASE_Y);
        bs := bs + [b];
      }
    }

    /** The eleven addAlien calls for row y: column x at 34 * (2 * x + 1),
        on the manager's offset for the row. */
    static method AddRow(m: AlienManager, y: int) returns (row: seq<Alien>)
      requires 0 <= y < NUM_ROWS && m.rowY.Length == NUM_ROWS && m.rowY[..] == InitialRows()
      ensures |row| == NUM_COLS
      ensures forall j :: 0 <= j < |row| ==> fresh(row[j])
      ensures forall j :: 0 <= j < |row| ==> row[j].col == j && row[j].row == y
      ensures forall j :: 0 <= j < |row| ==> row[j].View() == InitialFleet()[NUM_COLS * y + j]
    {
      row := [];
      for x := 0 to NUM_COLS
        invariant |row| == x
        invariant forall j :: 0 <= j < x ==> fresh(row[j])
        invariant forall j :: 0 <= j < x ==> row[j].col == j && row[j].row == y
        invariant forall j :: 0 <= j < x ==> row[j].View() == InitialFleet()[NUM_COLS * y + j]
      {
        assert m.rowY[y] == InitialRows()[y];
        var a := new Alien(x, y, HomeX(x), m.rowY[y]);
        IndexOfCell(y, x);
        row := row + [a];
      }
    }

    /** The 55 addAlien calls of CSpaceInvaders::init, row by row. */
    static method AddAliens(m: AlienManager) returns (list: seq<Alien>)
      requires m.rowY.Length == NUM_ROWS && m.rowY[..] == InitialRows()
      ensures |list| == NUM_ALIENS
      ensures forall j :: 0 <= j < |list| ==> fresh(list[j])
      ensures forall j :: 0 <= j < |list| ==> list[j].col + NUM_COLS * list[j].row == j
      ensures forall j :: 0 <= j < |list| ==> list[j].View() == InitialFleet()[j]
    {
      list := [];
      for y := 0 to NUM_ROWS
        invariant |list| == NUM_COLS * y
        invariant forall j :: 0 <= j < |list| ==> fresh(list[j])
        invariant forall j :: 0 <= j < |list| ==> list[j].col + NUM_COLS * list[j].row == j
        invariant forall j :: 0 <= j < |list| ==> list[j].View() == InitialFleet()[j]
      {
        var row := AddRow(m, y);
        list := list + row;
      }
    }

    /** CSpaceInvaders::init: the player at (400, 950), the score, the
        alien manager, the mystery alien, four bases at x = 98 * (2 * i + 1)
        on y = 840, and 55 aliens, column x of row y at 34 * (2 * x + 1) on
        the row's offset. */
    constructor ()
      ensures Valid() && State() == NewGame()
      ensures fresh(player) && fresh(player.bullets) && fresh(score) && fresh(level)
      ensures fresh(mgr) && fresh(mgr.rowY) && fresh(mgr.bullets) && fresh(mystery)
      ensures forall i :: 0 <= i < |aliens| ==> fresh(aliens[i])
      ensures forall k :: 0 <= k < |bases| ==> fresh(bases[k]) && fresh(bases[k].grid)
    {
      var p := new Player(400, 950);
      var s := new Score();
      var l := new Level();
      var m := new AlienManager();
      var ma := new MysteryAlien();
      assert m.rowY[..] == InitialRows();
      var bs := AddBases();
      var list := AddAliens(m);
      player, score, level, mgr, mystery := p, s, l, m, ma;
      aliens, bases := list, bs;
      paused, gameOver := false, false;
      new;
      assert Fleet() == InitialFleet();
      assert Bases() == seq(NUM_BASES, _ => NewGrid());
      assert State() == NewGame();
    }

    /** Alien::checkHit on alien i, with the award going to the score. */
    method ShootOne(i: int, b: Bullet) returns (b': Bullet)
      requires Wired() && 0 <= i < |aliens| && FleetValid(Fleet())
      modifies aliens[i], score
      ensures var u := ShootAlien(Volley(old(Fleet()), b, 0), i);
        Fleet() == u.fleet && b' == u.bullet && score.value == old(score.value) + u.award
    {
      assert Fleet()[i] == aliens[i].View();
      var award;
      b', award := aliens[i].CheckHit(b);
      score.Add(award);
      assert forall j :: 0 <= j < |aliens| && j != i ==> aliens[j] != aliens[i];
    }

    /** The loop of CSpaceInvaders::checkAlienHit over the aliens. */
    method ShootFleet(b: Bullet) returns (b': Bullet)
      requires Wired() && FleetValid(Fleet())
      modifies aliens, score
      ensures var u := GameState.ShootFleet(Volley(old(Fleet()), b, 0), |aliens|);
        Fleet() == u.fleet && b' == u.bullet && score.value == old(score.value) + u.award
      ensures FleetValid(Fleet())
    {
      b' := b;
      for i := 0 to |aliens|
        invariant var u := GameState.ShootFleet(Volley(old(Fleet()), b, 0), i);
          Fleet() == u.fleet && b' == u.bullet && score.value == old(score.value) + u.award
        invariant FleetValid(Fleet())
      {
        b' := ShootOne(i, b');
      }
    }

    /** The aliens' part of CSpaceInvaders::checkAlienHit. */
    method ShootAliens(b: Bullet) returns (b': Bullet)
      requires Valid()
      modifies aliens, score
      ensures Valid()
      ensures var o := GameState.ShootAliens(Outcome(old(State()), b)); State() == o.world && b' == o.bullet
    {
      ghost var w := State();
      PartsValid();
      b' := ShootFleet(b);
      assert Bases() == w.bases;
    }

    /** AlienManager::checkHit, as checkAlienHit calls it. */
    method InterceptShot(b: Bullet) returns (b': Bullet)
      requires Valid()
      modifies mgr.bullets
      ensures Valid()
      ensures var o := GameState.InterceptShot(Outcome(old(State()), b)); State() == o.world && b' == o.bullet
    {
      ghost var w := State();
      PartsValid();
      b' := mgr.CheckHit(b);
      assert Fleet() == w.fleet && Bases() == w.bases;
    }

    /** MysteryAlien::checkHit, with the award going to the score. */
    method ShootMystery(b: Bullet, r: real) returns (b': Bullet)
      requires Valid()
      modifies mystery, score
      ensures Valid()
      ensures var o := GameState.ShootMystery(Outcome(old(State()), b), r); State() == o.world && b' == o.bullet
    {
      ghost var w := State();
      PartsValid();
      var award;
      b', award := mystery.CheckHit(b, r);
      score.Add(award);
      assert Fleet() == w.fleet && Bases() == w.bases;
    }

    /** CSpaceInvaders::checkAlienHit: every alien in list order, then the
        alien bullets, then the mystery alien. */
    method CheckAlienHit(b: Bullet, r: real) returns (b': Bullet)
      requires Valid()
      modifies aliens, score, mgr.bullets, mystery
      ensures Valid()
      ensures var o := AlienHit(old(State()), b, r); State() == o.world && b' == o.bullet
    {
      b' := ShootAliens(b);
      b' := InterceptShot(b');
      b' := ShootMystery(b', r);
    }

    /** Base::checkHit on base k. */
    method ShootBase(k: int, b: Bullet) returns (b': Bullet)
      requires Wired() && 0 <= k < |bases| && BasesValid(Bases())
      requires forall j :: 0 <= j < |bases| ==> bases[j].grid.Length0 == GRID_ROWS && bases[j].grid.Length1 == GRID_COLS
      modifies bases[k].grid
      ensures var g := old(Bases())[k];
        Bases() == old(Bases())[k := ShotGrid(g, BaseX(k), BASE_Y, b.Rect())] &&
        b' == b.(dead := b.dead || StruckGrid(g, BaseX(k), BASE_Y, b.Rect()))
    {
      assert Bases()[k] == bases[k].Cells();
      b' := bases[k].CheckHit(b);
      assert forall j :: 0 <= j < |bases| && j != k ==> bases[j].grid != bases[k].grid;
    }

    /** The loop of CSpaceInvaders::checkBaseHit, for a session whose
        value is w. */
    method ShootBases(ghost w: World, b: Bullet) returns (b': Bullet)
      requires Wired() && w.bases == Bases() && BasesValid(Bases())
      requires forall j :: 0 <= j < |bases| ==> bases[j].grid.Length0 == GRID_ROWS && bases[j].grid.Length1 == GRID_COLS
      modifies Grids()
      ensures var p := GameState.ShootBases(Outcome(w, b), |bases|); Bases() == p.world.bases && b' == p.bullet
    {
      b' := b;
      for k := 0 to |bases|
        invariant var p := GameState.ShootBases(Outcome(w, b), k); Bases() == p.world.bases && b' == p.bullet
        invariant BasesValid(Bases())
      {
        ghost var p := GameState.ShootBases(Outcome(w, b), k);
        b' := ShootBase(k, b');
        assert GameState.ShootBases(Outcome(w, b), k + 1) == GameState.ShootBase(p, k);
      }
    }

    /** CSpaceInvaders::checkBaseHit: every base in turn, with the same
        bullet. */
    method CheckBaseHit(b: Bullet) returns (b': Bullet)
      requires Valid()
      modifies Grids()
      ensures Valid()
      ensures var o := BaseHit(old(State()), b); State() == o.world && b' == o.bullet
    {
      ghost var w := State();
      b' := ShootBases(w, b);
      ghost var o := BaseHit(w, b);
      assert o == GameState.ShootBases(Outcome(w, b), |bases|);
      assert Fleet() == w.fleet && Bases() == o.world.bases;
    }

    /** CSpaceInvaders::checkPlayerHit. */
    method CheckPlayerHit(b: Bullet) returns (b': Bullet)
      requires Valid()
      modifies player`lives, this`gameOver
      ensures Valid()
      ensures var o := ShootShip(Outcome(old(State()), b)); State() == o.world && b' == o.bullet
    {
      ghost var w := State();
      var over;
      b', over := player.CheckHit(b);
      if over {
        gameOver := true;
      }
      assert Fleet() == w.fleet && Bases() == w.bases;
    }

    /** Player::update's work on slot i: the bullet climbs, meets the
        aliens and then the bases while it lives, and is removed once dead. */
    method PlayerSlot(i: int, r: real)
      requires Valid() && 0 <= i < NUM_BULLETS
      modifies player.bullets, aliens, score, mgr.bullets, mystery, Grids()
      ensures Valid() && State() == GameState.PlayerSlot(old(State()), i, r)
    {
      ghost var w := State();
      PlayerSlotValid(w, i, r);
      PartsValid();
      var s := player.bullets[i];
      if s.None? {
        return;
      }
      var b := s.value.Update();
      ghost var o1 := if b.dead then Outcome(w, b) else AlienHit(w, b, r);
      if !b.dead {
        b := CheckAlienHit(b, r);
      }
      assert State() == o1.world && b == o1.bullet;
      ghost var o2 := if o1.bullet.dead then o1 else BaseHit(o1.world, o1.bullet);
      if !b.dead {
        b := CheckBaseHit(b);
      }
      assert State() == o2.world && b == o2.bullet;
      SettlePlayerShot(i, b);
    }

    /** The end of Player::update's work on slot i. */
    method SettlePlayerShot(i: int, b: Bullet)
      requires Wired() && player.Valid() && 0 <= i < NUM_BULLETS && b.kind == PlayerShot
      modifies player.bullets
      ensures player.Valid()
      ensures State() == old(State()).(playerShots := old(player.bullets[..])[i := if b.dead then None else Some(b)])
    {
      player.Settle(i, b);
      assert Fleet() == old(Fleet()) && Bases() == old(Bases());
    }

    /** Player::update: the fire cooldown, then every bullet slot in order. */
    method UpdatePlayer(r: real)
      requires Valid()
      modifies player`fireBlock, player.bullets, aliens, score, mgr.bullets, mystery, Grids()
      ensures Valid() && State() == GameState.UpdatePlayer(old(State()), r)
    {
      ghost var w := State();
      PartsValid();
      player.CoolDown();
      assert Fleet() == w.fleet && Bases() == w.bases;
      ghost var w0 := w.(player := w.player.CoolDown());
      assert State() == w0;
      for i := 0 to NUM_BULLETS
        invariant Valid() && State() == PlayerPass(w0, r, i)
      {
        PlayerSlot(i, r);
      }
    }

    /** Alien::update on alien i, given its fire draw: what it reports to
        the manager and to the session is one step of the tally t, and the
        flag g || t.overrun that it may set is the game-over flag. */
    method UpdateOne(i: int, fire: bool, ghost g: bool, ghost t: Tally)
      requires Wired() && 0 <= i < |aliens| && FleetValid(Fleet()) && mgr.Valid()
      requires mgr.numAlive == t.numAlive && mgr.needsIncRow == t.needsIncRow &&
               mgr.bullets[..] == t.shots && gameOver == (g || t.overrun)
      modifies aliens[i], mgr`numAlive, mgr`needsIncRow, mgr.bullets, this`gameOver
      ensures FleetValid(Fleet()) && mgr.Valid() && mgr.Formation() == old(mgr.Formation())
      ensures Fleet() == old(Fleet())[i := old(Fleet())[i].Tick(old(mgr.Step()))]
      ensures var u := Report(t, old(Fleet())[i], old(mgr.Formation()), fire);
        mgr.numAlive == u.numAlive && mgr.needsIncRow == u.needsIncRow &&
        mgr.bullets[..] == u.shots && gameOver == (g || u.overrun)
    {
      ghost var a, f := Fleet()[i], mgr.Formation();
      assert a == aliens[i].View();
      var over := aliens[i].Update(mgr, fire);
      assert f.rowY[a.row] == mgr.rowY[aliens[i].row];
      assert over <==> a.Hittable() && Overrun(f, a);
      if over {
        gameOver := true;
      }
      assert forall j :: 0 <= j < |aliens| && j != i ==> aliens[j] != aliens[i];
      assert Fleet() == old(Fleet())[i := a.Tick(f.Step())];
    }

    /** The aliens of a session whose value was w have been updated up to
        alien i: the first i are ticked, and the manager and the game-over
        flag hold what their reports add up to. */
    ghost predicate UpdatedUpTo(w: World, fires: seq<bool>, i: int)
      requires 0 <= i <= |w.fleet|
      reads this, mgr, mgr.rowY, mgr.bullets, aliens
    {
      var t := AlienPass(w.fleet, w.formation, fires, Tally(0, false, w.alienShots, false), i);
      FleetValid(Fleet()) && mgr.Valid() && mgr.Formation() == w.formation &&
      Fleet() == TickFleet(w.fleet, w.formation.Step(), i) &&
      mgr.numAlive == t.numAlive && mgr.needsIncRow == t.needsIncRow &&
      mgr.bullets[..] == t.shots && gameOver == (w.gameOver || t.overrun)
    }

    /** One turn of the loop of CSpaceInvaders::update over the aliens. */
    method UpdateStep(ghost w: World, fires: seq<bool>, i: int)
      requires Wired() && |w.fleet| == |aliens| && 0 <= i < |aliens| && UpdatedUpTo(w, fires, i)
      modifies aliens[i], mgr`numAlive, mgr`needsIncRow, mgr.bullets, this`gameOver
      ensures UpdatedUpTo(w, fires, i + 1)
    {
      ghost var t0 := Tally(0, false, w.alienShots, false);
      ghost var t := AlienPass(w.fleet, w.formation, fires, t0, i);
      ghost var fl := Fleet();
      assert fl[i] == w.fleet[i];
      UpdateOne(i, FiresAt(fires, i), w.gameOver, t);
      assert AlienPass(w.fleet, w.formation, fires, t0, i + 1) == Report(t, w.fleet[i], w.formation, FiresAt(fires, i));
      assert Fleet() == fl[i := w.fleet[i].Tick(w.formation.Step())];
    }

    /** The loop of CSpaceInvaders::update over every alien, after
        AlienManager::preUpdate, for a session whose value was w. */
    method UpdateFleet(ghost w: World, fires: seq<bool>)
      requires Wired() && FleetValid(Fleet()) && mgr.Valid()
      requires Fleet() == w.fleet && mgr.Formation() == w.formation && gameOver == w.gameOver
      requires mgr.numAlive == 0 && !mgr.needsIncRow && mgr.bullets[..] == w.alienShots
      modifies aliens, mgr`numAlive, mgr`needsIncRow, mgr.bullets, this`gameOver
      ensures UpdatedUpTo(w, fires, |w.fleet|)
    {
      for i := 0 to |aliens|
        invariant UpdatedUpTo(w, fires, i)
      {
        UpdateStep(w, fires, i);
      }
    }

    /** AlienManager::preUpdate, then Alien::update on every alien. */
    method UpdateAliens(fires: seq<bool>)
      requires Valid()
      modifies aliens, mgr`numAlive, mgr`needsIncRow, mgr.bullets, this`gameOver
      ensures Valid() && State() == GameState.UpdateAliens(old(State()), fires)
    {
      ghost var w := State();
      PartsValid();
      mgr.PreUpdate();
      assert Fleet() == w.fleet;
      UpdateFleet(w, fires);
      assert Bases() == w.bases;
      assert State() == GameState.UpdateAliens(w, fires);
      UpdateAliensValid(w, fires);
    }

    /** Alien::reset on alien i. */
    method ResetOne(i: int)
      requires Wired() && 0 <= i < |aliens| && FleetValid(Fleet())
      modifies aliens[i]
      ensures FleetValid(Fleet()) && Fleet() == old(Fleet())[i := old(Fleet())[i].Reset()]
    {
      assert Fleet()[i] == aliens[i].View();
      aliens[i].Reset();
      assert forall j :: 0 <= j < |aliens| && j != i ==> aliens[j] != aliens[i];
      assert Fleet() == old(Fleet())[i := old(Fleet())[i].Reset()];
    }

    /** The loop over the aliens of nextLevel and restart. */
    method ResetEachAlien()
      requires Wired() && FleetValid(Fleet())
      modifies aliens
      ensures FleetValid(Fleet()) && Fleet() == ResetFleet(old(Fleet()))
    {
      for i := 0 to |aliens|
        invariant FleetValid(Fleet()) && |Fleet()| == |old(Fleet())|
        invariant forall j :: 0 <= j < |aliens| ==> Fleet()[j] == if j < i then old(Fleet())[j].Reset() else old(Fleet())[j]
      {
        ResetOne(i);
      }
    }

    /** Base::reset on base k. */
    method ResetBase(k: int)
      requires Wired() && 0 <= k < |bases| && BasesValid(Bases())
      requires forall j :: 0 <= j < |bases| ==> bases[j].grid.Length0 == GRID_ROWS && bases[j].grid.Length1 == GRID_COLS
      modifies bases[k].grid
      ensures BasesValid(Bases()) && Bases() == old(Bases())[k := ResetGrid(old(Bases())[k])]
    {
      assert Bases()[k] == bases[k].Cells();
      bases[k].Reset();
      assert forall j :: 0 <= j < |bases| && j != k ==> bases[j].grid != bases[k].grid;
      assert Bases() == old(Bases())[k := ResetGrid(old(Bases())[k])];
    }

    /** The loop over the bases of restart. */
    method ResetEachBase()
      requires Wired() && BasesValid(Bases())
      requires forall j :: 0 <= j < |bases| ==> bases[j].grid.Length0 == GRID_ROWS && bases[j].grid.Length1 == GRID_COLS
      modifies Grids()
      ensures BasesValid(Bases()) && Bases() == GameState.ResetBases(old(Bases()))
    {
      for k := 0 to |bases|
        invariant BasesValid(Bases())
        invariant forall j :: 0 <= j < |bases| ==> Bases()[j] == if j < k then ResetGrid(old(Bases())[j]) else old(Bases())[j]
      {
        ResetBase(k);
      }
    }

    /** Alien::reset on every alien. */
    method ResetAliens()
      requires Valid()
      modifies aliens
      ensures Valid() && State() == old(State()).(fleet := ResetFleet(old(State()).fleet))
    {
      ghost var w := State();
      PartsValid();
      ResetEachAlien();
      assert Bases() == w.bases;
    }

    /** Base::reset on every base. */
    method ResetBases()
      requires Valid()
      modifies Grids()
      ensures Valid() && State() == old(State()).(bases := GameState.ResetBases(old(State()).bases))
    {
      ghost var w := State();
      ResetEachBase();
      assert Fleet() == w.fleet;
    }

    /** AlienManager::reset. */
    method ResetManager()
      requires Valid()
      modifies mgr, mgr.rowY, mgr.bullets
      ensures Valid()
      ensures State() == old(State()).(formation := Formations.Reset(old(State()).formation), alienShots := EmptySlots(NUM_BULLETS))
    {
      ghost var w := State();
      PartsValid();
      mgr.Reset();
      assert Fleet() == w.fleet && Bases() == w.bases;
    }

    /** MysteryAlien::reset. */
    method ResetMystery()
      requires Valid()
      modifies mystery
      ensures Valid() && State() == old(State()).(mystery := old(State()).mystery.Reset())
    {
      ghost var w := State();
      mystery.Reset();
      assert Fleet() == w.fleet && Bases() == w.bases;
    }

    /** The flags, the level, the score and the player, as restart resets
        them. */
    method ResetCounters()
      requires Valid()
      modifies this`paused, this`gameOver, level, score, player, player.bullets
      ensures Valid()
      ensures State() == old(State()).(paused := false, gameOver := false, level := 1, score := 0,
                                       player := old(State()).player.Reset(), playerShots := EmptySlots(NUM_BULLETS))
    {
      ghost var w := State();
      PartsValid();
      paused, gameOver := false, false;
      level.Reset();
      score.Reset();
      player.Reset();
      assert Fleet() == w.fleet && Bases() == w.bases;
    }

    /** CSpaceInvaders::nextLevel. */
    method NextLevel()
      requires Valid()
      modifies this`paused, this`gameOver, aliens, mgr, mgr.rowY, mgr.bullets, mystery
      ensures Valid() && State() == GameState.NextLevel(old(State()))
    {
      ghost var w := State();
      paused, gameOver := false, false;
      assert Fleet() == w.fleet && Bases() == w.bases;
      ResetAliens();
      ResetManager();
      ResetMystery();
    }

    /** AlienManager::postUpdate, with its call of nextLevel once no alien
        was alive this tick. */
    method PostUpdate()
      requires Valid()
      modifies this`paused, this`gameOver, aliens, mgr, mgr.rowY, mgr.bullets, mystery
      ensures Valid() && State() == GameState.PostUpdate(old(State()))
    {
      ghost var w := State();
      PartsValid();
      var cleared := mgr.PostUpdate();
      assert Fleet() == w.fleet && Bases() == w.bases;
      if cleared {
        NextLevel();
      }
    }

    /** The end of AlienManager::update's work on slot i. */
    method SettleAlienShot(i: int, b: Bullet)
      requires Wired() && mgr.Valid() && 0 <= i < NUM_BULLETS && b.kind == AlienShot
      modifies mgr.bullets
      ensures mgr.Valid()
      ensures State() == old(State()).(alienShots := old(mgr.bullets[..])[i := if b.dead then None else Some(b)])
    {
      mgr.Settle(i, b);
      assert Fleet() == old(Fleet()) && Bases() == old(Bases());
    }

    /** AlienManager::update's work on slot i: the bullet falls, meets the
        ship and then the bases while it lives, and is removed once dead. */
    method AlienSlot(i: int)
      requires Valid() && 0 <= i < NUM_BULLETS
      modifies mgr.bullets, player`lives, this`gameOver, Grids()
      ensures Valid() && State() == GameState.AlienSlot(old(State()), i)
    {
      ghost var w := State();
      AlienSlotValid(w, i);
      PartsValid();
      var s := mgr.bullets[i];
      if s.None? {
        return;
      }
      var b := s.value.Update();
      ghost var o1 := if b.dead then Outcome(w, b) else ShootShip(Outcome(w, b));
      if !b.dead {
        b := CheckPlayerHit(b);
      }
      assert State() == o1.world && b == o1.bullet;
      ghost var o2 := if o1.bullet.dead then o1 else BaseHit(o1.world, o1.bullet);
      if !b.dead {
        b := CheckBaseHit(b);
      }
      assert State() == o2.world && b == o2.bullet;
      SettleAlienShot(i, b);
    }

    /** AlienManager::update: every alien bullet slot in order. */
    method UpdateAlienShots()
      requires Valid()
      modifies mgr.bullets, player`lives, this`gameOver, Grids()
      ensures Valid() && State() == AlienShotPass(old(State()), NUM_BULLETS)
    {
      ghost var w := State();
      for i := 0 to NUM_BULLETS
        invariant Valid() && State() == AlienShotPass(w, i)
      {
        AlienSlot(i);
      }
    }

    /** MysteryAlien::update, then the respawn when it is dead and the
        draw spawn says so. */
    method UpdateMystery(spawn: bool)
      requires Valid()
      modifies mystery
      ensures Valid() && State() == old(State()).(mystery := MysteryStep(old(State()).mystery, spawn))
    {
      ghost var w := State();
      PartsValid();
      mystery.Update();
      if mystery.dead && spawn {
        mystery.Reset();
        mystery.Revive();
      }
      assert Fleet() == w.fleet && Bases() == w.bases;
    }

    /** CSpaceInvaders::update, given the draws of the tick: fires[i] for
        alien i, r for a mystery score, spawn for the mystery respawn. */
    method Update(fires: seq<bool>, r: real, spawn: bool)
      requires Valid()
      modifies this, player, player.bullets, score, mgr, mgr.rowY, mgr.bullets, mystery, aliens, Grids()
      ensures Valid() && State() == GameState.Update(old(State()), fires, r, spawn)
    {
      if paused || gameOver {
        return;
      }
      UpdatePlayer(r);
      UpdateAliens(fires);
      PostUpdate();
      UpdateAlienShots();
      UpdateMystery(spawn);
    }

    /** CSpaceInvaders::restart: only from a paused or finished game. */
    method Restart()
      requires Valid()
      modifies this, player, player.bullets, score, level, mgr, mgr.rowY, mgr.bullets, aliens, Grids()
      ensures Valid() && State() == GameState.Restart(old(State()))
    {
      if !paused && !gameOver {
        return;
      }
      ResetCounters();
      ResetAliens();
      ResetBases();
      ResetManager();
    }

    /** Alien::draw on alien i. */
    method DrawOne(i: int)
      requires Wired() && 0 <= i < |aliens| && FleetValid(Fleet()) && mgr.Valid()
      modifies aliens[i]
      ensures FleetValid(Fleet())
      ensures Fleet() == old(Fleet())[i := old(Fleet())[i].(y := mgr.rowY[old(Fleet())[i].row])]
    {
      assert Fleet()[i] == aliens[i].View();
      aliens[i].Draw(mgr);
      assert forall j :: 0 <= j < |aliens| && j != i ==> aliens[j] != aliens[i];
      assert Fleet() == old(Fleet())[i := old(Fleet())[i].(y := mgr.rowY[old(Fleet())[i].row])];
    }

    /** CSpaceInvaders::draw: the only state it changes is the aliens' y,
        which Alien::draw takes from the rows. */
    method Draw()
      requires Valid()
      modifies aliens
      ensures Valid() && State() == GameState.Draw(old(State()))
    {
      ghost var w := State();
      PartsValid();
      for i := 0 to |aliens|
        invariant FleetValid(Fleet()) && |Fleet()| == |w.fleet|
        invariant forall j :: 0 <= j < |aliens| ==> Fleet()[j] == if j < i then SyncRows(w.fleet, w.formation)[j] else w.fleet[j]
      {
        DrawOne(i);
      }
      assert Fleet() == SyncRows(w.fleet, w.formation);
      assert Bases() == w.bases;
    }

    /** CSpaceInvaders::moveShipLeft. */
    method MoveShipLeft()
      requires Valid()
      modifies player`x
      ensures Valid() && State() == GameState.MoveShipLeft(old(State()))
    {
      if paused || gameOver {
        return;
      }
      player.MoveLeft();
      assert Fleet() == old(Fleet());
      assert Bases() == old(Bases());
    }

    /** CSpaceInvaders::moveShipRight. */
    method MoveShipRight()
      requires Valid()
      modifies player`x
      ensures Valid() && State() == GameState.MoveShipRight(old(State()))
    {
      if paused || gameOver {
        return;
      }
      player.MoveRight();
      assert Fleet() == old(Fleet());
      assert Bases() == old(Bases());
    }

    /** CSpaceInvaders::shipFire. */
    method ShipFire()
      requires Valid()
      modifies player`fireBlock, player.bullets
      ensures Valid() && State() == GameState.ShipFire(old(State()))
    {
      if paused || gameOver {
        return;
      }
      PartsValid();
      player.Fire();
      assert Fleet() == old(Fleet());
      assert Bases() == old(Bases());
    }

    /** CSpaceInvaders::pause. */
    method Pause()
      requires Valid()
      modifies this`paused
      ensures Valid() && State() == GameState.Pause(old(State()))
    {
      paused := !paused;
      assert Fleet() == old(Fleet());
      assert Bases() == old(Bases());
    }
  }
}
