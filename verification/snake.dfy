/** The snake as the game keeps it: a fixed array of body slots, updated in
    place, and the current heading. Each method is proved against the
    function of module Body that specifies it. */
module SnakeEngine {
  import opened Optional
  import opened Grid
  import opened Body

  class Snake {
    /** The body slots, head first; the array itself is never replaced. */
    const body: array<Option<Point>>
    var direction: Direction

    /** The body invariant: Capacity slots, 2 to Capacity segments forming a
        prefix, every later slot empty. */
    ghost predicate Valid()
      reads this, body
      ensures Valid() ==> body.Length == Capacity && Linked(body[..])
    {
      WellFormed(body[..])
    }

    /** The snake of init_game: head (5,5), one segment (4,5) behind it,
        heading Right, the other eight slots empty. */
    constructor ()
      ensures Valid() && fresh(body)
      ensures body[..] == InitialBody() && direction == Right
      ensures Segments(body[..]) == [Point(5, 5), Point(4, 5)]
    {
      body := new Option<Point>[Capacity](_ => None);
      direction := Right;
      new;
      body[0] := Some(Point(StartX, StartY));
      body[1] := Some(Point(StartX - 1, StartY));
      assert body[..] == InitialBody();
    }

    /** set_next_direction: steer by the key pressed, never straight back. */
    method SetNextDirection(k: Key)
      modifies this`direction
      ensures direction == NextDirection(old(direction), k)
      ensures direction != Opposite(old(direction))
    {
      match k
      case KeyUp => if direction != Down { direction := Up; }
      case KeyDown => if direction != Up { direction := Down; }
      case KeyLeft => if direction != Right { direction := Left; }
      case KeyRight => if direction != Left { direction := Right; }
      case OtherKey =>
    }

    /** move_snake: copy each occupied slot's predecessor into it, from the
        last slot down to slot 1, then move the head one step. */
    method Move()
      requires Valid()
      modifies body
      ensures Valid()
      ensures body[..] == Moved(old(body[..]), direction)
      ensures Segments(body[..]) ==
                [Translate(old(Segments(body[..]))[0], direction)] +
                old(Segments(body[..]))[..|old(Segments(body[..]))| - 1]
    {
      ghost var s := body[..];
      var i := body.Length - 1;
      while i > 0
        invariant 0 <= i < body.Length
        invariant forall j :: 0 <= j <= i ==> body[j] == s[j]
        invariant forall j :: i < j < body.Length ==> body[j] == Moved(s, direction)[j]
      {
        if body[i].Some? {
          body[i] := body[i - 1];
        }
        i := i - 1;
      }
      body[0] := Some(Translate(body[0].value, direction));
      assert body[..] == Moved(s, direction);
      MoveShiftsChain(s, direction, |Segments(s)|);
    }

    /** get_tail_position: the index of the last segment, found by scanning
        for the first slot whose successor is empty (the slot beyond the
        array counts as empty). */
    method GetTailPosition() returns (p: nat)
      requires Valid()
      ensures p == TailPosition(body[..])
      ensures p == |Segments(body[..])| - 1
    {
      ghost var s := body[..];
      var i := 0;
      while i + 1 < body.Length && body[i + 1].Some?
        invariant 0 <= i < body.Length
        invariant TailFrom(s, i, None) == TailFrom(s, 0, None)
      {
        i := i + 1;
      }
      p := i;
      TailOfPrefix(s, |Segments(s)|);
    }

    /** grow_snake: put a new segment in the slot after the tail, unless the
        tail is already in the last slot. */
    method Grow()
      requires Valid()
      modifies body
      ensures Valid()
      ensures body[..] == Grown(old(body[..]), direction)
      ensures |Segments(body[..])| ==
                if |old(Segments(body[..]))| == Capacity then Capacity
                else |old(Segments(body[..]))| + 1
    {
      ghost var s := body[..];
      var t := GetTailPosition();
      GrowAppends(s, direction, |Segments(s)|);
      if t + 1 == body.Length {
        return;
      }
      body[t + 1] := Some(GrowthCell(body[t].value, direction));
      assert body[..] == Grown(s, direction);
      SegmentsOfPrefix(body[..], |Segments(s)| + 1);
    }

    /** snake_hit_itself: does an occupied slot other than the head hold the
        head's point? */
    method HitItself() returns (hit: bool)
      requires Valid()
      ensures hit == HitsItself(body[..])
      ensures hit <==> Segments(body[..])[0] in Segments(body[..])[1..]
    {
      HitsItselfOnChain(body[..], |Segments(body[..])|);
      var head := body[0].value;
      var i := 1;
      while i < body.Length
        invariant 1 <= i <= body.Length
        invariant forall j :: 1 <= j < i ==> body[j] != Some(head)
      {
        if body[i].Some? && body[i].value == head {
          return true;
        }
        i := i + 1;
      }
      return false;
    }
  }
}
