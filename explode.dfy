/** The life cycle shared by Graphic and ExplodeGraphic: the dead flag and
    the explosion countdown. Alien and MysteryAlien carry these two fields
    and their update methods are specified by the functions below. */
module Explode {

  /** Ticks an explosion lasts (ExplodeGraphic::setExploding). */
  const EXPLODE_TICKS: int := 4

  datatype Life = Life(dead: bool, exploding: int) {

    predicate IsExploding() { exploding > 0 }

    predicate Valid() { 0 <= exploding <= EXPLODE_TICKS }

    /** ExplodeGraphic::setExploding. */
    function SetExploding(): Life { Life(dead, EXPLODE_TICKS) }

    /** ExplodeGraphic::reset (with Graphic::reset): alive, not exploding. */
    function Reset(): Life { Life(false, 0) }

    /** ExplodeGraphic::update: count the explosion down; the entity dies
        when the count reaches zero. Outside an explosion nothing changes. */
    function Update(): (r: Life)
      ensures Valid() ==> r.Valid()
      ensures dead ==> r.dead
      ensures !IsExploding() ==> r == this
      ensures IsExploding() ==> r.exploding == exploding - 1
      ensures r.dead <==> dead || exploding == 1
    {
      if exploding > 0 then
        Life(dead || exploding - 1 == 0, exploding - 1)
      else
        this
    }
  }

  /** n successive updates. */
  function Updates(l: Life, n: nat): Life
  {
    if n == 0 then l else Updates(l, n - 1).Update()
  }

  /** A live entity that starts exploding stays alive, still exploding, for
      three updates and is dead, with the countdown at zero, from the
      fourth update on. */
  lemma {:induction false} ExplosionLastsFourUpdates(l: Life, n: nat)
    requires !l.dead
    ensures var e := Updates(l.SetExploding(), n);
      (n < EXPLODE_TICKS ==> !e.dead && e.exploding == EXPLODE_TICKS - n) &&
      (n >= EXPLODE_TICKS ==> e.dead && e.exploding == 0)
  {
    if n > 0 {
      ExplosionLastsFourUpdates(l, n - 1);
    }
  }
}
