/** The formation-wide state an AlienManager keeps: the y offset of each of
    the five alien rows, the shared horizontal direction and the internal
    speed counter. The class AlienManager is specified against these
    functions. */
module Formations {

  const NUM_ROWS: int := 5

  /** Half the formation column width w_ = 48: the descent step and the
      edge margin. */
  const HALF_WIDTH: int := 24

  /** The speed counter that AlienManager starts from and resets to. */
  const BASE_SPEED: int := 8

  datatype Formation = Formation(rowY: seq<int>, dir: int, speed: int) {

    predicate Valid() {
      |rowY| == NUM_ROWS && (dir == 1 || dir == -1) && speed >= BASE_SPEED
    }

    /** AlienManager::getSpeed: the counter in steps of four. */
    function Speed(): int { speed / 4 }

    /** The horizontal step of a live alien in one tick, getSpeed() times
        getDir(), written as a case split on the direction so that it stays
        linear. */
    function Step(): (dx: int)
      ensures dir == 1 || dir == -1 ==> dx == Speed() * dir
    {
      if dir < 0 then -(speed / 4) else speed / 4
    }
  }

  /** Row offsets of a new game: 60 * y + 110. */
  function InitialRows(): (r: seq<int>)
    ensures |r| == NUM_ROWS && forall y :: 0 <= y < NUM_ROWS ==> r[y] == 60 * y + 110
  {
    seq(NUM_ROWS, y => 60 * y + 110)
  }

  /** Row offsets after AlienManager::reset: 60 * y + 100. */
  function ResetRows(): (r: seq<int>)
    ensures |r| == NUM_ROWS && forall y :: 0 <= y < NUM_ROWS ==> r[y] == 60 * y + 100
  {
    seq(NUM_ROWS, y => 60 * y + 100)
  }

  /** The AlienManager constructor's formation. */
  function Initial(): (f: Formation)
    ensures f.Valid()
  {
    Formation(InitialRows(), 1, BASE_SPEED)
  }

  /** AlienManager::reset: speed and rows go back, the direction is kept. */
  function Reset(f: Formation): (r: Formation)
    ensures (f.dir == 1 || f.dir == -1) ==> r.Valid()
  {
    Formation(ResetRows(), f.dir, BASE_SPEED)
  }

  /** One row descent (AlienManager::postUpdate with needsIncRow_ set). */
  function Descend(f: Formation): (g: Formation)
    ensures |g.rowY| == |f.rowY| && forall y :: 0 <= y < |f.rowY| ==> g.rowY[y] == f.rowY[y] + HALF_WIDTH
    ensures g.dir == -f.dir && g.speed == f.speed + 1
  {
    Formation(seq(|f.rowY|, y requires 0 <= y < |f.rowY| => f.rowY[y] + HALF_WIDTH), -f.dir, f.speed + 1)
  }

  /** n descents in a row. */
  function Descents(f: Formation, n: nat): Formation
  {
    if n == 0 then f else Descend(Descents(f, n - 1))
  }

  /** After n descents every row is 24 * n lower, the speed counter is n
      higher, and the direction has flipped n times. */
  lemma {:induction false} DescentsShift(f: Formation, n: nat)
    ensures var g := Descents(f, n);
      |g.rowY| == |f.rowY| &&
      (forall y :: 0 <= y < |f.rowY| ==> g.rowY[y] == f.rowY[y] + HALF_WIDTH * n) &&
      g.speed == f.speed + n &&
      g.dir == (if n % 2 == 0 then f.dir else -f.dir)
  {
    if n > 0 {
      DescentsShift(f, n - 1);
    }
  }

  /** Descending keeps the formation well formed. */
  lemma DescendValid(f: Formation)
    requires f.Valid()
    ensures Descend(f).Valid()
  {
  }

  /** From a reset formation, the visible speed after n descents is
      (8 + n) / 4: it rises by one every fourth descent. */
  lemma VisibleSpeedAfterDescents(f: Formation, n: nat)
    ensures Descents(Reset(f), n).Speed() == (BASE_SPEED + n) / 4
  {
    DescentsShift(Reset(f), n);
  }

  /** Each descent raises the visible speed by at most one and never
      lowers it. */
  lemma DescendSpeedStep(f: Formation)
    requires f.speed >= 0
    ensures f.Speed() <= Descend(f).Speed() <= f.Speed() + 1
  {
  }
}
