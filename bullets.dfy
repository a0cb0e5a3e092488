/** Bullets and the fixed five-slot bullet pools of the player and of the
    alien formation. A pool slot is None where the C++ vector holds a null
    pointer; firing fills the lowest free slot, and a dead bullet is removed
    in the same pass that updates it. */
module Bullets {
  import opened Geometry

  datatype Option<T> = None | Some(value: T)

  /** Capacity of each pool (Player::NUM_BULLETS, AlienManager::NUM_BULLETS). */
  const NUM_BULLETS: int := 5

  /** PlayerBullet (4 x 26, 32 pixels up per tick) or AlienBullet
      (9 x 26, 8 pixels down per tick). The owner back-pointer is only
      kept by the C++ for attribution and is not modelled. */
  datatype Kind = PlayerShot | AlienShot

  datatype Bullet = Bullet(kind: Kind, x: int, y: int, dead: bool) {

    function Width(): nat { if kind == PlayerShot then 4 else 9 }

    /** Graphic::rect of the bullet. */
    function Rect(): Rect { Box(x, y, Width(), 26) }

    /** Graphic::setDead. */
    function Kill(): Bullet { this.(dead := true) }

    /** PlayerBullet::update (dies once above y = 10) and
        AlienBullet::update (dies at the bottom of the screen). */
    function Update(): (r: Bullet)
      ensures r.kind == kind && r.x == x
      ensures dead ==> r.dead
    {
      match kind
      case PlayerShot =>
        var y' := y - 32;
        Bullet(kind, x, y', dead || y' < 10)
      case AlienShot =>
        var y' := y + 8;
        Bullet(kind, x, y', dead || y' >= SCREEN_HEIGHT)
    }
  }

  /** A freshly fired bullet. */
  function Shot(kind: Kind, x: int, y: int): Bullet { Bullet(kind, x, y, false) }

  /** n successive updates of one bullet. */
  function Updates(b: Bullet, n: nat): Bullet
  {
    if n == 0 then b else Updates(b, n - 1).Update()
  }

  /** A player bullet climbs 32 pixels per update and is dead after n
      updates exactly when it was dead already or has passed above y = 10. */
  lemma {:induction false} PlayerBulletFlight(b: Bullet, n: nat)
    requires b.kind == PlayerShot
    ensures Updates(b, n).kind == b.kind && Updates(b, n).x == b.x
    ensures Updates(b, n).y == b.y - 32 * n
    ensures Updates(b, n).dead <==> b.dead || (n > 0 && b.y - 32 * n < 10)
  {
    if n > 0 {
      PlayerBulletFlight(b, n - 1);
    }
  }

  /** An alien bullet falls 8 pixels per update and is dead after n updates
      exactly when it was dead already or has reached the bottom edge. */
  lemma {:induction false} AlienBulletFlight(b: Bullet, n: nat)
    requires b.kind == AlienShot
    ensures Updates(b, n).kind == b.kind && Updates(b, n).x == b.x
    ensures Updates(b, n).y == b.y + 8 * n
    ensures Updates(b, n).dead <==> b.dead || (n > 0 && b.y + 8 * n >= SCREEN_HEIGHT)
  {
    if n > 0 {
      AlienBulletFlight(b, n - 1);
    }
  }

  type Slots = seq<Option<Bullet>>

  /** No slot holds a dead bullet (the state between two ticks). */
  predicate NoDead(s: Slots) {
    forall i :: 0 <= i < |s| && s[i].Some? ==> !s[i].value.dead
  }

  /** Every bullet in the pool is of the given kind. */
  predicate AllOfKind(s: Slots, k: Kind) {
    forall i :: 0 <= i < |s| && s[i].Some? ==> s[i].value.kind == k
  }

  predicate Full(s: Slots) {
    forall i :: 0 <= i < |s| ==> s[i].Some?
  }

  function EmptySlots(n: nat): (r: Slots)
    ensures |r| == n && forall i :: 0 <= i < n ==> r[i] == None
  {
    seq(n, _ => None)
  }

  /** The lowest free slot, or |s| when the pool is full. */
  function FirstFree(s: Slots): (i: nat)
    ensures i <= |s|
    ensures i < |s| ==> s[i].None?
    ensures forall j :: 0 <= j < i ==> s[j].Some?
    ensures i == |s| <==> Full(s)
  {
    if s == [] then 0
    else if s[0].None? then 0
    else 1 + FirstFree(s[1..])
  }

  /** The pool after a fire request: b goes into the lowest free slot and
      a full pool drops it silently. */
  function Place(s: Slots, b: Bullet): (r: Slots)
    ensures |r| == |s|
    ensures forall j :: 0 <= j < |s| && s[j].Some? ==> r[j] == s[j]
    ensures r == s <==> Full(s)
  {
    var i := FirstFree(s);
    if i < |s| then s[i := Some(b)] else s
  }

  /** The lowest occupied slot whose bullet overlaps r, or |s| if none. */
  function FirstOverlap(s: Slots, r: Rect): (i: nat)
    ensures i <= |s|
    ensures i < |s| ==> s[i].Some? && Overlaps(r, s[i].value.Rect())
    ensures forall j :: 0 <= j < i ==> s[j].None? || !Overlaps(r, s[j].value.Rect())
  {
    if s == [] then 0
    else if s[0].Some? && Overlaps(r, s[0].value.Rect()) then 0
    else 1 + FirstOverlap(s[1..], r)
  }

  /** AlienManager::checkHit as a value: a live player bullet b that
      overlaps an alien bullet removes the first such one in slot order and
      dies; otherwise pool and bullet are unchanged. */
  function Intercept(s: Slots, b: Bullet): (r: (Slots, Bullet))
    ensures |r.0| == |s| && r.1 == b.(dead := r.1.dead)
    ensures r.1.dead <==> b.dead || FirstOverlap(s, b.Rect()) < |s|
    ensures !r.1.dead || b.dead ==> r.0 == s
    ensures !b.dead && r.1.dead ==> r.0 == s[FirstOverlap(s, b.Rect()) := None]
  {
    var k := FirstOverlap(s, b.Rect());
    if !b.dead && k < |s| then (s[k := None], b.Kill()) else (s, b)
  }

  /** Number of occupied slots. */
  function Occupied(s: Slots): nat
  {
    if s == [] then 0 else (if s[0].Some? then 1 else 0) + Occupied(s[1..])
  }

  /** Firing adds exactly one bullet unless the pool is full, and only the
      lowest free slot changes. */
  lemma {:induction false} PlaceFillsOneSlot(s: Slots, b: Bullet)
    ensures |Place(s, b)| == |s|
    ensures Occupied(Place(s, b)) == Occupied(s) + (if Full(s) then 0 else 1)
    ensures forall j :: 0 <= j < |s| && j != FirstFree(s) ==> Place(s, b)[j] == s[j]
    ensures !Full(s) ==> Place(s, b)[FirstFree(s)] == Some(b)
  {
    if s != [] && s[0].Some? {
      PlaceFillsOneSlot(s[1..], b);
      assert Place(s, b) == [s[0]] + Place(s[1..], b);
    } else if s != [] {
      assert Place(s, b)[1..] == s[1..];
    }
  }

  /** A pool never holds more bullets than it has slots. */
  lemma {:induction false} OccupiedBounded(s: Slots)
    ensures Occupied(s) <= |s|
    ensures Occupied(s) == |s| <==> Full(s)
  {
    if s != [] {
      OccupiedBounded(s[1..]);
      if Full(s[1..]) && s[0].Some? {
        assert Full(s);
      }
    }
  }

  /** One tick's fire requests, served in order: each shot takes the
      lowest slot still free, and shots beyond the capacity are dropped. */
  function FireAll(s: Slots, shots: seq<Bullet>): Slots
  {
    if shots == [] then s else Place(FireAll(s, shots[..|shots| - 1]), shots[|shots| - 1])
  }

  /** Serving two batches of requests one after the other is serving
      them together. */
  lemma {:induction false} FireAllAppend(s: Slots, xs: seq<Bullet>, ys: seq<Bullet>)
    ensures FireAll(s, xs + ys) == FireAll(FireAll(s, xs), ys)
  {
    if ys == [] {
      assert xs + ys == xs;
    } else {
      FireAllAppend(s, xs, ys[..|ys| - 1]);
      assert (xs + ys)[..|xs + ys| - 1] == xs + ys[..|ys| - 1];
    }
  }

  /** Serving fire requests never overwrites a bullet in flight, and the
      pool grows by one per request until it is full. */
  lemma {:induction false} FireAllKeepsFlying(s: Slots, shots: seq<Bullet>)
    ensures |FireAll(s, shots)| == |s|
    ensures forall j :: 0 <= j < |s| && s[j].Some? ==> FireAll(s, shots)[j] == s[j]
    ensures Occupied(FireAll(s, shots)) == if Occupied(s) + |shots| <= |s| then Occupied(s) + |shots| else |s|
  {
    if shots != [] {
      var t := FireAll(s, shots[..|shots| - 1]);
      FireAllKeepsFlying(s, shots[..|shots| - 1]);
      PlaceFillsOneSlot(t, shots[|shots| - 1]);
      OccupiedBounded(t);
    } else {
      OccupiedBounded(s);
    }
  }
}
