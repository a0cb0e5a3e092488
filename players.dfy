/** The player's ship: horizontal movement clamped to the screen, a fire
    cooldown, a pool of five player bullets and the life counter. */
module Players {
  import opened Geometry
  import opened Bullets

  /** Player::NUM_LIVES. */
  const NUM_LIVES: int := 3

  /** Ticks during which a new shot is refused after firing. */
  const FIRE_BLOCK: int := 8

  const PLAYER_WIDTH: nat := 57
  const PLAYER_HEIGHT: nat := 35
  /** Player::DX, the step of one move. */
  const PLAYER_STEP: int := 8

  /** The mutable state of the ship, apart from its bullet pool. */
  datatype PlayerView = PlayerView(x: int, y: int, dead: bool, lives: int, fireBlock: int) {

    /** Graphic::rect of the ship. */
    function Rect(): Rect { Box(x, y, PLAYER_WIDTH, PLAYER_HEIGHT) }

    /** Player::moveLeft: one step left, never past x = w / 2. */
    function MoveLeft(): (p: PlayerView)
      ensures p == this.(x := p.x)
      ensures p.x >= PLAYER_WIDTH / 2
      ensures p.x == x - PLAYER_STEP || p.x == PLAYER_WIDTH / 2
      ensures x - PLAYER_STEP >= PLAYER_WIDTH / 2 ==> p.x == x - PLAYER_STEP
    {
      var x' := x - PLAYER_STEP;
      this.(x := if x' < PLAYER_WIDTH / 2 then PLAYER_WIDTH / 2 else x')
    }

    /** Player::moveRight: one step right, never past x = 800 - w / 2 - 1. */
    function MoveRight(): (p: PlayerView)
      ensures p == this.(x := p.x)
      ensures p.x <= SCREEN_WIDTH - PLAYER_WIDTH / 2 - 1
      ensures p.x == x + PLAYER_STEP || p.x == SCREEN_WIDTH - PLAYER_WIDTH / 2 - 1
      ensures x + PLAYER_STEP < SCREEN_WIDTH - PLAYER_WIDTH / 2 ==> p.x == x + PLAYER_STEP
    {
      var x' := x + PLAYER_STEP;
      this.(x := if x' >= SCREEN_WIDTH - PLAYER_WIDTH / 2 then SCREEN_WIDTH - PLAYER_WIDTH / 2 - 1 else x')
    }

    /** The first step of Player::update: the cooldown goes down by one
        while it is positive, so it never becomes negative. */
    function CoolDown(): (p: PlayerView)
      ensures p == this.(fireBlock := p.fireBlock)
      ensures fireBlock > 0 ==> p.fireBlock == fireBlock - 1
      ensures fireBlock <= 0 ==> p.fireBlock == fireBlock
      ensures 0 <= fireBlock <= FIRE_BLOCK ==> 0 <= p.fireBlock <= FIRE_BLOCK
    {
      if fireBlock > 0 then this.(fireBlock := fireBlock - 1) else this
    }

    /** Player::checkHit's test: a live bullet overlapping the live ship. */
    predicate HitBy(b: Bullet) {
      !b.dead && !dead && Overlaps(b.Rect(), Rect())
    }

    /** Player::reset: alive, three lives, no cooldown; the position is kept. */
    function Reset(): (p: PlayerView)
      ensures p.x == x && p.y == y && !p.dead && p.lives == NUM_LIVES && p.fireBlock == 0
    {
      PlayerView(x, y, false, NUM_LIVES, 0)
    }
  }

  /** The bullet Player::fire puts into the pool for a ship at (x, y). */
  function PlayerBullet(p: PlayerView): Bullet {
    Shot(PlayerShot, p.x, p.y - PLAYER_HEIGHT / 2)
  }

  class Player {
    var x: int
    var y: int
    var dead: bool
    var lives: int
    var fireBlock: int
    const bullets: array<Option<Bullet>>

    ghost predicate Valid()
      reads this, bullets
    {
      bullets.Length == NUM_BULLETS && 0 <= fireBlock <= FIRE_BLOCK &&
      NoDead(bullets[..]) && AllOfKind(bullets[..], PlayerShot)
    }

    function View(): PlayerView
      reads this
    {
      PlayerView(x, y, dead, lives, fireBlock)
    }

    /** The Player constructor: three lives, no cooldown, no bullets. */
    constructor (x: int, y: int)
      ensures Valid() && fresh(bullets)
      ensures View() == PlayerView(x, y, false, NUM_LIVES, 0)
      ensures bullets[..] == EmptySlots(NUM_BULLETS)
    {
      var slots := new Option<Bullet>[NUM_BULLETS];
      for i := 0 to NUM_BULLETS
        invariant forall k :: 0 <= k < i ==> slots[k] == None
      {
        slots[i] := None;
      }
      this.x, this.y := x, y;
      dead, lives, fireBlock := false, NUM_LIVES, 0;
      bullets := slots;
      new;
      assert bullets[..] == EmptySlots(NUM_BULLETS);
    }

    /** Player::reset: alive, three lives, no cooldown, every bullet
        removed. The position is kept. */
    method Reset()
      requires Valid()
      modifies this, bullets
      ensures Valid()
      ensures View() == old(View()).Reset()
      ensures bullets[..] == EmptySlots(NUM_BULLETS)
    {
      dead := false;
      lives := NUM_LIVES;
      fireBlock := 0;
      for i := 0 to NUM_BULLETS
        modifies bullets
        invariant forall k :: 0 <= k < i ==> bullets[k] == None
      {
        bullets[i] := None;
      }
      assert bullets[..] == EmptySlots(NUM_BULLETS);
    }

    /** Player::moveLeft. */
    method MoveLeft()
      modifies this`x
      ensures View() == old(View()).MoveLeft()
    {
      x := x - PLAYER_STEP;
      var hs := PLAYER_WIDTH / 2;
      if x < hs {
        x := hs;
      }
    }

    /** Player::moveRight. */
    method MoveRight()
      modifies this`x
      ensures View() == old(View()).MoveRight()
    {
      x := x + PLAYER_STEP;
      var hs := PLAYER_WIDTH / 2;
      if x >= SCREEN_WIDTH - hs {
        x := SCREEN_WIDTH - hs - 1;
      }
    }

    /** Player::fire: refused while the cooldown runs or all five slots are
        taken; otherwise a bullet at the ship's top edge goes into the
        lowest free slot and the cooldown restarts at 8. */
    method Fire()
      requires Valid()
      modifies this`fireBlock, bullets
      ensures Valid()
      ensures old(fireBlock) > 0 || Full(old(bullets[..])) ==>
        View() == old(View()) && bullets[..] == old(bullets[..])
      ensures old(fireBlock) == 0 && !Full(old(bullets[..])) ==>
        View() == old(View()).(fireBlock := FIRE_BLOCK) &&
        bullets[..] == old(bullets[..])[FirstFree(old(bullets[..])) := Some(PlayerBullet(View()))]
    {
      if fireBlock > 0 {
        return;
      }
      for i := 0 to NUM_BULLETS
        invariant forall j :: 0 <= j < i ==> bullets[j].Some?
        invariant bullets[..] == old(bullets[..]) && fireBlock == old(fireBlock)
      {
        if bullets[i].Some? {
          continue;
        }
        bullets[i] := Some(Shot(PlayerShot, x, y - PLAYER_HEIGHT / 2));
        fireBlock := FIRE_BLOCK;
        return;
      }
    }

    /** The end of Player::update's work on slot i: the flown bullet b stays
        in the slot, or the slot is freed when b is dead. */
    method Settle(i: int, b: Bullet)
      requires Valid() && 0 <= i < NUM_BULLETS && b.kind == PlayerShot
      modifies bullets
      ensures Valid()
      ensures bullets[..] == old(bullets[..])[i := if b.dead then None else Some(b)]
    {
      bullets[i] := if b.dead then None else Some(b);
    }

    /** The first step of Player::update: the cooldown goes down by one
        while it is positive. */
    method CoolDown()
      requires Valid()
      modifies this`fireBlock
      ensures Valid()
      ensures View() == old(View()).CoolDown()
    {
      if fireBlock > 0 {
        fireBlock := fireBlock - 1;
      }
    }

    /** Player::checkHit: a live alien bullet overlapping the live ship costs
        one life and dies. The result is true when the lives are used up,
        which is when the C++ calls setGameOver. */
    method CheckHit(b: Bullet) returns (b': Bullet, over: bool)
      modifies this`lives
      ensures var hit := old(View()).HitBy(b);
        View() == old(View()).(lives := old(lives) - (if hit then 1 else 0)) &&
        b' == (if hit then b.Kill() else b) &&
        (over <==> hit && lives <= 0)
    {
      b', over := b, false;
      if b.dead {
        return;
      }
      if dead {
        return;
      }
      if Overlaps(b.Rect(), View().Rect()) {
        lives := lives - 1;
        b' := b.Kill();
        if lives <= 0 {
          over := true;
        }
      }
    }
  }
}
