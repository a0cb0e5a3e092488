/** The alien formation: the shared AlienManager, the 55 aliens it steers,
    and the mystery bonus alien. */
module Aliens {
  import opened Geometry
  import opened Sprites
  import opened Explode
  import opened Bullets
  import opened Formations

  /** Rows of a formation below this offset end the game (Alien::update). */
  const OVERRUN_Y: int := 900

  /** Height of every alien sprite. */
  const ALIEN_HEIGHT: nat := 35

  /** The three alien classes Alien1, Alien2 and Alien3. */
  datatype Tier = Tier1 | Tier2 | Tier3 {

    function Width(): nat {
      match this
      case Tier1 => 35
      case Tier2 => 48
      case Tier3 => 52
    }

    /** Alien::getScore of each class. */
    function Score(): int {
      match this
      case Tier1 => 30
      case Tier2 => 20
      case Tier3 => 10
    }
  }

  /** CSpaceInvaders::addAlien: row 0 is Alien1, rows 1-2 Alien2, rows 3-4 Alien3. */
  function TierOfRow(row: int): (t: Tier)
    ensures 0 <= row < NUM_ROWS ==> t.Score() == if row == 0 then 30 else if row <= 2 then 20 else 10
  {
    if row == 0 then Tier1 else if row == 1 || row == 2 then Tier2 else Tier3
  }

  /** Alien::reset places the alien of column col at x = 34 * (2 * col + 1). */
  function HomeX(col: int): int { 34 * (2 * col + 1) }

  /** The state of one alien: its fixed place in the formation (column,
      row and class) and what its updates change. */
  datatype AlienView = AlienView(col: int, row: int, tier: Tier, x: int, y: int, life: Life, imageCount: int, images: Sprite) {

    predicate Valid() {
      0 <= col && 0 <= row < NUM_ROWS && tier == TierOfRow(row) &&
      life.Valid() && (life.exploding > 0 ==> !life.dead) &&
      images.count == 2 && images.Valid() && 0 <= imageCount <= 4
    }

    /** Neither dead nor exploding: the alien can be hit and is counted alive. */
    predicate Hittable() { !life.dead && life.exploding == 0 }

    /** Graphic::rect. */
    function Rect(): Rect { Box(x, y, tier.Width(), ALIEN_HEIGHT) }

    /** Alien::reset: alive, not exploding, back at its home column, image
        counter 0; the row position and the current frame are kept. */
    function Reset(): (v: AlienView)
      ensures v.Hittable() && v.x == HomeX(col) && v.imageCount == 0
      ensures v == this.(x := v.x, life := v.life, imageCount := v.imageCount)
      ensures Valid() ==> v.Valid()
    {
      this.(x := HomeX(col), life := life.Reset(), imageCount := 0)
    }

    /** The alien once a bullet has hit it: its explosion starts. */
    function Hit(): (v: AlienView)
      ensures v.life.IsExploding() && !v.Hittable()
      ensures Valid() && Hittable() ==> v.Valid()
    {
      this.(life := life.SetExploding())
    }

    /** What Alien::update does to the alien itself, for a formation step
        dx (speed times direction): the explosion countdown; unless that
        leaves it dead, a move by dx; and for a live alien the image
        counter, which shows the next frame every fourth tick. */
    function Tick(dx: int): (v: AlienView)
      ensures v == this.(x := v.x, life := v.life, imageCount := v.imageCount, images := v.images)
      ensures v.life == life.Update()
      ensures v.x == if v.life.dead then x else x + dx
      ensures !Hittable() ==> v.imageCount == imageCount && v.images == images
      ensures Hittable() ==> v.imageCount == (if imageCount <= 1 then 4 else imageCount - 1)
      ensures Hittable() ==> v.images == if imageCount <= 1 then images.Next() else images
      ensures Valid() ==> v.Valid()
    {
      var l := life.Update();
      if l.dead then this.(life := l)
      else if !Hittable() then this.(life := l, x := x + dx)
      else if imageCount <= 1 then this.(life := l, x := x + dx, imageCount := 4, images := images.Next())
      else this.(life := l, x := x + dx, imageCount := imageCount - 1)
    }
  }

  /** Alien::update's edge test: x at or past 800 - w / 2, or left of w / 2. */
  predicate AtEdge(x: int) { x >= SCREEN_WIDTH - HALF_WIDTH || x < HALF_WIDTH }

  /** Alien::checkHit's test: a live bullet overlapping a live alien that
      is not exploding. */
  predicate HitsAlien(b: Bullet, v: AlienView) {
    !b.dead && v.Hittable() && Overlaps(b.Rect(), v.Rect())
  }

  class AlienManager {
    const rowY: array<int>
    var dir: int
    var speed: int
    const w: int
    var numAlive: int
    var needsIncRow: bool
    const bullets: array<Option<Bullet>>

    ghost predicate Valid()
      reads this, rowY, bullets
    {
      rowY.Length == NUM_ROWS && bullets.Length == NUM_BULLETS && w == 2 * HALF_WIDTH &&
      Formation().Valid() &&
      NoDead(bullets[..]) && AllOfKind(bullets[..], AlienShot)
    }

    /** The formation part of the state: row offsets, direction, speed. */
    function Formation(): Formation
      reads this, rowY
    {
      Formations.Formation(rowY[..], dir, speed)
    }

    /** AlienManager::getSpeed. */
    function GetSpeed(): int
      reads this
    {
      speed / 4
    }

    /** The step of every live alien in one tick, getSpeed() * getDir(). */
    function Step(): int
      reads this, rowY
    {
      Formation().Step()
    }

    constructor ()
      ensures Valid() && fresh(rowY) && fresh(bullets)
      ensures Formation() == Initial()
      ensures bullets[..] == EmptySlots(NUM_BULLETS)
      ensures numAlive == 0 && !needsIncRow
    {
      var rows := new int[NUM_ROWS];
      for y := 0 to NUM_ROWS
        modifies rows
        invariant forall k :: 0 <= k < y ==> rows[k] == 60 * k + 110
      {
        rows[y] := y * 60 + 110;
      }
      var slots := new Option<Bullet>[NUM_BULLETS];
      for i := 0 to NUM_BULLETS
        modifies slots
        invariant forall k :: 0 <= k < i ==> slots[k] == None
      {
        slots[i] := None;
      }
      rowY, bullets := rows, slots;
      dir, speed, w, numAlive, needsIncRow := 1, BASE_SPEED, 2 * HALF_WIDTH, 0, false;
      new;
      assert forall k :: 0 <= k < NUM_ROWS ==> rowY[..][k] == InitialRows()[k];
      assert rowY[..] == InitialRows();
      assert bullets[..] == EmptySlots(NUM_BULLETS);
    }

    /** AlienManager::reset: speed 8, rows at 60 * y + 100, every alien
        bullet removed. The direction and the per-tick counters are kept. */
    method Reset()
      requires Valid()
      modifies this, rowY, bullets
      ensures Valid()
      ensures Formation() == Formations.Reset(old(Formation()))
      ensures bullets[..] == EmptySlots(NUM_BULLETS)
      ensures numAlive == old(numAlive) && needsIncRow == old(needsIncRow)
    {
      speed := BASE_SPEED;
      for y := 0 to NUM_ROWS
        modifies rowY
        invariant forall k :: 0 <= k < y ==> rowY[k] == 60 * k + 100
      {
        rowY[y] := y * 60 + 100;
      }
      for i := 0 to NUM_BULLETS
        modifies bullets
        invariant forall k :: 0 <= k < i ==> bullets[k] == None
      {
        bullets[i] := None;
      }
      assert forall k :: 0 <= k < NUM_ROWS ==> rowY[..][k] == ResetRows()[k];
      assert rowY[..] == ResetRows();
      assert bullets[..] == EmptySlots(NUM_BULLETS);
    }

    /** AlienManager::preUpdate: clear the descent flag and the alive count. */
    method PreUpdate()
      modifies this`needsIncRow, this`numAlive
      ensures !needsIncRow && numAlive == 0
    {
      needsIncRow := false;
      numAlive := 0;
    }

    /** AlienManager::postUpdate. When some alien touched an edge, every row
        moves down by w / 2, the direction flips and the speed counter goes
        up by one. The result tells the session that no alien was alive
        this tick, which is when the C++ calls CSpaceInvaders::nextLevel. */
    method PostUpdate() returns (cleared: bool)
      requires Valid()
      modifies this, rowY
      ensures Valid()
      ensures Formation() == if old(needsIncRow) then Descend(old(Formation())) else old(Formation())
      ensures !needsIncRow && numAlive == old(numAlive)
      ensures cleared <==> numAlive == 0
    {
      if needsIncRow {
        for y := 0 to NUM_ROWS
          modifies rowY
          invariant forall k :: 0 <= k < y ==> rowY[k] == old(rowY[k]) + HALF_WIDTH
          invariant forall k :: y <= k < NUM_ROWS ==> rowY[k] == old(rowY[k])
        {
          rowY[y] := rowY[y] + w / 2;
        }
        dir := -dir;
        speed := speed + 1;
        needsIncRow := false;
        assert rowY[..] == Descend(old(Formation())).rowY;
      }
      cleared := numAlive == 0;
    }

    /** AlienManager::fire: an alien bullet 24 pixels below the firing alien
        at (x, y) goes into the lowest free slot; with all five slots taken
        the request is dropped. */
    method Fire(x: int, y: int)
      requires Valid()
      modifies bullets
      ensures Valid()
      ensures bullets[..] == Place(old(bullets[..]), Shot(AlienShot, x, y + 24))
    {
      for i := 0 to NUM_BULLETS
        invariant forall j :: 0 <= j < i ==> bullets[j].Some?
        invariant bullets[..] == old(bullets[..])
      {
        if bullets[i].Some? {
          continue;
        }
        bullets[i] := Some(Shot(AlienShot, x, y + 24));
        return;
      }
    }

    /** The end of AlienManager::update's work on slot i: the fallen bullet
        b stays in the slot, or the slot is freed when b is dead. */
    method Settle(i: int, b: Bullet)
      requires Valid() && 0 <= i < NUM_BULLETS && b.kind == AlienShot
      modifies bullets
      ensures Valid()
      ensures bullets[..] == old(bullets[..])[i := if b.dead then None else Some(b)]
    {
      bullets[i] := if b.dead then None else Some(b);
    }

    /** AlienManager::checkHit: a live player bullet that overlaps an alien
        bullet removes the first such bullet in slot order and dies. */
    method CheckHit(b: Bullet) returns (b': Bullet)
      requires Valid()
      modifies bullets
      ensures Valid()
      ensures (bullets[..], b') == Intercept(old(bullets[..]), b)
    {
      b' := b;
      if b.dead {
        return;
      }
      for i := 0 to NUM_BULLETS
        invariant forall j :: 0 <= j < i ==> bullets[j].None? || !Overlaps(b.Rect(), bullets[j].value.Rect())
        invariant bullets[..] == old(bullets[..])
      {
        if bullets[i].None? {
          continue;
        }
        if Overlaps(b.Rect(), bullets[i].value.Rect()) {
          bullets[i] := None;
          b' := b.Kill();
          return;
        }
      }
    }
  }

  class Alien {
    const col: int
    const row: int
    const tier: Tier
    var x: int
    var y: int
    var dead: bool
    var exploding: int
    var imageCount: int
    var images: Sprite

    ghost predicate Valid()
      reads this
    {
      View().Valid()
    }

    function Life(): Life
      reads this
    {
      Explode.Life(dead, exploding)
    }

    function View(): AlienView
      reads this
    {
      AlienView(col, row, tier, x, y, Life(), imageCount, images)
    }

    predicate Hittable()
      reads this
    {
      View().Hittable()
    }

    /** Graphic::rect. */
    function Rect(): Rect
      reads this
    {
      View().Rect()
    }

    /** The Alien1/Alien2/Alien3 constructors, at the position addAlien gives. */
    constructor (col: int, row: int, x: int, y: int)
      requires 0 <= row < NUM_ROWS && 0 <= col
      ensures Valid() && this.col == col && this.row == row
      ensures View() == AlienView(col, row, TierOfRow(row), x, y, Explode.Life(false, 0), 4, Frames(2))
    {
      this.col, this.row, tier := col, row, TierOfRow(row);
      this.x, this.y := x, y;
      dead, exploding := false, 0;
      imageCount, images := 4, Frames(2);
    }

    /** Alien::reset: alive, back at its home column, image counter 0. The
        row position and the current frame are kept. */
    method Reset()
      requires Valid()
      modifies this
      ensures Valid()
      ensures View() == old(View()).Reset()
    {
      dead := false;
      exploding := 0;
      imageCount := 0;
      x := 34 * (2 * col + 1);
    }

    /** Alien::draw, the part that changes state: the alien's y is set from
        its row offset only here. */
    method Draw(mgr: AlienManager)
      requires Valid() && mgr.Valid()
      modifies this
      ensures Valid()
      ensures View() == old(View()).(y := mgr.rowY[row])
    {
      y := mgr.rowY[row];
    }

    /** ExplodeGraphic::update on this alien. */
    method Countdown()
      requires Valid()
      modifies this`dead, this`exploding
      ensures Life() == old(Life()).Update()
    {
      if exploding > 0 {
        exploding := exploding - 1;
        if exploding == 0 {
          dead := true;
        }
      }
    }

    /** The part of Alien::update for an alien neither dead nor exploding,
        after it has moved. */
    method Live(mgr: AlienManager, fires: bool) returns (overrun: bool)
      requires mgr.Valid() && Hittable() && 0 <= imageCount <= 4 && 0 <= row < NUM_ROWS
      modifies this`imageCount, this`images, mgr`numAlive, mgr`needsIncRow, mgr.bullets
      ensures mgr.Valid()
      ensures imageCount == (if old(imageCount) <= 1 then 4 else old(imageCount) - 1)
      ensures images == if old(imageCount) <= 1 then old(images).Next() else old(images)
      ensures mgr.numAlive == old(mgr.numAlive) + 1
      ensures mgr.needsIncRow <==> old(mgr.needsIncRow) || AtEdge(x)
      ensures mgr.bullets[..] == if fires then Place(old(mgr.bullets[..]), Shot(AlienShot, x, y + 24)) else old(mgr.bullets[..])
      ensures overrun <==> mgr.rowY[row] > OVERRUN_Y
    {
      var hs := mgr.w / 2;
      if x >= SCREEN_WIDTH - hs {
        mgr.needsIncRow := true;
      } else if x < hs {
        mgr.needsIncRow := true;
      }
      imageCount := imageCount - 1;
      if imageCount <= 0 {
        images := images.Next();
        imageCount := 4;
      }
      if fires {
        mgr.Fire(x, y);
      }
      mgr.numAlive := mgr.numAlive + 1;
      overrun := mgr.rowY[row] > OVERRUN_Y;
    }

    /** Alien::update. The explosion countdown runs first; a dead alien
        does nothing else, an exploding one only moves. A live alien moves,
        flags a descent at either edge, cycles its image every fourth tick,
        fires when `fires` (the 1% random draw) holds, counts itself alive,
        and reports an overrun (the C++ calls setGameOver) when its row is
        below 900. */
    method Update(mgr: AlienManager, fires: bool) returns (overrun: bool)
      requires Valid() && mgr.Valid()
      modifies this, mgr`numAlive, mgr`needsIncRow, mgr.bullets
      ensures Valid() && mgr.Valid()
      ensures View() == old(View()).Tick(old(mgr.Step()))
      ensures mgr.Formation() == old(mgr.Formation())
      ensures mgr.numAlive == old(mgr.numAlive) + (if old(Hittable()) then 1 else 0)
      ensures mgr.needsIncRow <==> old(mgr.needsIncRow) || (old(Hittable()) && AtEdge(x))
      ensures mgr.bullets[..] ==
        if old(Hittable()) && fires then Place(old(mgr.bullets[..]), Shot(AlienShot, x, y + 24))
        else old(mgr.bullets[..])
      ensures overrun <==> old(Hittable()) && mgr.rowY[row] > OVERRUN_Y
    {
      overrun := false;
      Countdown();
      if dead {
        return;
      }
      x := x + mgr.GetSpeed() * mgr.dir;
      if exploding > 0 {
        return;
      }
      overrun := Live(mgr, fires);
    }

    /** Alien::checkHit: a live bullet overlapping a live, non-exploding
        alien starts its explosion, dies, and earns the alien's score. */
    method CheckHit(b: Bullet) returns (b': Bullet, award: int)
      requires Valid()
      modifies this
      ensures Valid()
      ensures var hit := HitsAlien(b, old(View()));
        b' == (if hit then b.Kill() else b) &&
        award == (if hit then tier.Score() else 0) &&
        View() == if hit then old(View()).Hit() else old(View())
    {
      b', award := b, 0;
      if b.dead {
        return;
      }
      if dead || exploding > 0 {
        return;
      }
      if Overlaps(b.Rect(), Rect()) {
        exploding := EXPLODE_TICKS;
        award := tier.Score();
        b' := b.Kill();
      }
    }
  }

  /** MysteryAlien::getScore for the random draw r in [0, 1]. */
  function MysteryScore(r: real): (s: int)
    ensures s in {100, 200, 300, 400}
  {
    if r < 0.50 then 100
    else if r < 0.80 then 200
    else if r < 0.95 then 300
    else 400
  }

  /** A larger draw never gives a smaller score. */
  lemma MysteryScoreMonotone(r1: real, r2: real)
    requires r1 <= r2
    ensures MysteryScore(r1) <= MysteryScore(r2)
  {
  }

  const MYSTERY_WIDTH: nat := 71
  const MYSTERY_HEIGHT: nat := 31

  /** The mutable state of the mystery alien. */
  datatype MysteryView = MysteryView(x: int, y: int, life: Life) {

    /** Neither dead nor exploding: the mystery alien can be hit. */
    predicate Hittable() { !life.dead && life.exploding == 0 }

    function Rect(): Rect { Box(x, y, MYSTERY_WIDTH, MYSTERY_HEIGHT) }

    /** MysteryAlien::update: the explosion countdown, then, unless that
        leaves it dead, 4 pixels to the left, dying once past the left edge.
        It keeps flying while it explodes. */
    function Tick(): (m: MysteryView)
      ensures m.y == y
      ensures life.Update().dead ==> m == this.(life := life.Update())
      ensures !life.Update().dead ==> m.x == x - 4 && m.life.exploding == life.Update().exploding
      ensures m.life.dead <==> life.Update().dead || x - 4 < 0
      ensures life.Valid() ==> m.life.Valid()
    {
      var l := life.Update();
      if l.dead then this.(life := l)
      else if x - 4 < 0 then MysteryView(x - 4, y, l.(dead := true))
      else MysteryView(x - 4, y, l)
    }

    /** MysteryAlien::reset: dormant, not exploding, just off the right edge. */
    function Reset(): (m: MysteryView)
      ensures m.life.dead && m.life.exploding == 0 && m.x == SCREEN_WIDTH + MYSTERY_WIDTH / 2 && m.y == y
    {
      MysteryView(SCREEN_WIDTH + MYSTERY_WIDTH / 2, y, Explode.Life(true, 0))
    }

    /** The mystery alien once a bullet has hit it. */
    function Hit(): (m: MysteryView)
      ensures m.life.IsExploding() && !m.Hittable()
      ensures m == this.(life := m.life)
    {
      this.(life := life.SetExploding())
    }

    /** Graphic::setDead(false), as CSpaceInvaders::update uses it on a
        respawn. */
    function Revive(): (m: MysteryView)
      ensures !m.life.dead && m == this.(life := m.life)
    {
      this.(life := life.(dead := false))
    }

    /** MysteryAlien::checkHit's test. */
    predicate HitBy(b: Bullet) {
      !b.dead && Hittable() && Overlaps(b.Rect(), Rect())
    }
  }

  class MysteryAlien {
    var x: int
    var y: int
    var dead: bool
    var exploding: int

    ghost predicate Valid()
      reads this
    {
      Life().Valid()
    }

    function View(): MysteryView
      reads this
    {
      MysteryView(x, y, Life())
    }

    function Life(): Life
      reads this
    {
      Explode.Life(dead, exploding)
    }


    /** The MysteryAlien constructor: dormant at (0, 60). */
    constructor ()
      ensures Valid()
      ensures x == 0 && y == 60 && dead && exploding == 0
    {
      x, y, dead, exploding := 0, 60, true, 0;
    }

    /** MysteryAlien::reset: dormant, not exploding, just off the right edge. */
    method Reset()
      modifies this
      ensures Valid()
      ensures View() == old(View()).Reset()
    {
      dead, exploding := false, 0;
      dead := true;
      x := SCREEN_WIDTH + MYSTERY_WIDTH / 2;
    }

    /** Graphic::setDead(false), as CSpaceInvaders::update uses it on a
        respawn. */
    method Revive()
      modifies this`dead
      ensures View() == old(View()).Revive()
    {
      dead := false;
    }

    /** MysteryAlien::update: the explosion countdown, then, unless dead,
        4 pixels to the left, dying once past the left edge. It keeps
        flying while it explodes. */
    method Update()
      requires Valid()
      modifies this
      ensures Valid()
      ensures View() == old(View()).Tick()
    {
      if exploding > 0 {
        exploding := exploding - 1;
        if exploding == 0 {
          dead := true;
        }
      }
      if dead {
        return;
      }
      x := x - 4;
      if x < 0 {
        dead := true;
      }
    }

    /** MysteryAlien::checkHit: like Alien::checkHit, with the score drawn
        from the buckets of getScore for the given draw r. */
    method CheckHit(b: Bullet, r: real) returns (b': Bullet, award: int)
      requires Valid()
      modifies this
      ensures Valid()
      ensures var hit := old(View()).HitBy(b);
        b' == (if hit then b.Kill() else b) &&
        award == (if hit then MysteryScore(r) else 0) &&
        View() == if hit then old(View()).Hit() else old(View())
    {
      b', award := b, 0;
      if b.dead {
        return;
      }
      if dead || exploding > 0 {
        return;
      }
      if Overlaps(b.Rect(), View().Rect()) {
        exploding := EXPLODE_TICKS;
        award := MysteryScore(r);
        b' := b.Kill();
      }
    }
  }
}
