/** ImageList reduced to what the game logic observes: the index of the
    current frame and the number of frames loaded. Drawing is not modelled. */
module Sprites {

  function Max(a: int, b: int): int { if a < b then b else a }

  datatype Sprite = Sprite(index: int, count: nat) {

    /** The index lies in [0, max(1, count)): with no images it stays 0. */
    predicate Valid() {
      0 <= index < Max(1, count)
    }

    /** ImageList::next: advance one frame, wrapping to the first. */
    function Next(): (r: Sprite)
      ensures r.count == count
      ensures Valid() ==> r.Valid()
      ensures r.index == 0 || r.index == index + 1
      ensures Valid() && index + 1 < count ==> r.index == index + 1
    {
      if index + 1 >= count then Sprite(0, count) else Sprite(index + 1, count)
    }

    /** ImageList::reset. */
    function Reset(): (r: Sprite)
      ensures r.Valid() && r.index == 0 && r.count == count
    {
      Sprite(0, count)
    }
  }

  /** A sprite made of n frames, showing the first. */
  function Frames(n: nat): (r: Sprite)
    ensures r.Valid() && r.index == 0 && r.count == n
  {
    Sprite(0, n)
  }

  /** n calls of ImageList::next. */
  function Advance(s: Sprite, n: nat): Sprite
  {
    if n == 0 then s else Advance(s, n - 1).Next()
  }

  /** On a non-empty list, next is addition modulo the number of frames. */
  lemma NextIsModular(s: Sprite)
    requires s.Valid() && s.count > 0
    ensures s.Next().index == (s.index + 1) % s.count
  {
  }

  /** Starting from the first frame, n < count steps show frame n, and
      count steps come back to the first frame. */
  lemma {:induction false} AdvanceFromFirst(count: nat, n: nat)
    requires 0 < count && n <= count
    ensures Advance(Frames(count), n).index == if n == count then 0 else n
    ensures Advance(Frames(count), n).count == count
  {
    if n > 0 {
      AdvanceFromFirst(count, n - 1);
    }
  }
}
