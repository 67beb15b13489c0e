/** The snake's body as the sequence of its fixed number of slots, head first.
    An occupied slot holds a point; an empty slot (a NULL pointer) holds None.
    The functions here are the specifications of the in-place operations of
    the Snake class, and the lemmas state what those operations do to the
    chain of segments. */
module Body {
  import opened Optional
  import opened Grid

  /** Number of slots allocated for the body (INITIAL_SNAKE_SIZE). */
  const Capacity: nat := 10
  /** Where the head starts (INITIAL_SNAKE_POSITION_X, INITIAL_SNAKE_POSITION_Y). */
  const StartX: int := 5
  const StartY: int := 5

  type Slots = seq<Option<Point>>

  /** Slots 0..n-1 are occupied and every later slot is empty. */
  predicate ContiguousPrefix(s: Slots, n: nat) {
    n <= |s| && forall i :: 0 <= i < |s| ==> (s[i].Some? <==> i < n)
  }

  /** The head slot is occupied and no occupied slot follows an empty one:
      what the game needs so that it never follows a NULL pointer. */
  predicate Linked(s: Slots) {
    |s| > 0 && s[0].Some? &&
    forall i :: 0 < i < |s| && s[i].Some? ==> s[i - 1].Some?
  }

  /** The segments of the snake, head first: the points of the leading run
      of occupied slots. */
  function Segments(s: Slots): (r: seq<Point>)
    ensures |r| <= |s|
    ensures forall i :: 0 <= i < |r| ==> s[i] == Some(r[i])
    ensures |r| < |s| ==> s[|r|].None?
  {
    if s == [] || s[0].None? then [] else [s[0].value] + Segments(s[1..])
  }

  /** The body invariant of the game: all slots present, between 2 and
      Capacity segments, and every slot past the last segment empty. */
  predicate WellFormed(s: Slots)
    ensures WellFormed(s) ==> Linked(s) && |s| == Capacity && 2 <= |Segments(s)| <= Capacity
  {
    |s| == Capacity && 2 <= |Segments(s)| && ContiguousPrefix(s, |Segments(s)|)
  }

  /** In a linked body every slot after the leading run of segments is empty. */
  lemma {:induction false} EmptyPastSegments(s: Slots, i: nat)
    requires Linked(s) && |Segments(s)| <= i < |s|
    ensures s[i].None?
    decreases i
  {
    if i > |Segments(s)| {
      EmptyPastSegments(s, i - 1);
    }
  }

  /** The body invariant is the same as: Capacity slots, a head and no
      occupied slot after an empty one (so the NULL checks never skip a
      segment), and at least two segments. */
  lemma WellFormedIffLinked(s: Slots)
    ensures WellFormed(s) <==> |s| == Capacity && Linked(s) && 2 <= |Segments(s)|
  {
    if |s| == Capacity && Linked(s) && 2 <= |Segments(s)| {
      forall i | |Segments(s)| <= i < |s|
        ensures s[i].None?
      {
        EmptyPastSegments(s, i);
      }
    }
  }

  lemma SegmentsOfPrefix(s: Slots, n: nat)
    requires ContiguousPrefix(s, n)
    ensures |Segments(s)| == n
  {
    var r := Segments(s);
    assert n < |r| ==> s[n] == Some(r[n]);
  }

  lemma PrefixIsLinked(s: Slots, n: nat)
    requires ContiguousPrefix(s, n) && 1 <= n
    ensures Linked(s)
  {
  }

  /** The scan of get_tail_position, from index i on: the first index whose
      successor slot is empty, or 0 when the scan runs off the end without
      finding one. `past` is what the scan reads one slot beyond the last. */
  function TailFrom(s: Slots, i: nat, past: Option<Point>): (r: nat)
    ensures past.None? && i < |s| ==>
              i <= r < |s| && (r + 1 < |s| ==> s[r + 1].None?) &&
              forall j :: i < j <= r ==> s[j].Some?
    decreases |s| - i
  {
    if i >= |s| then 0
    else if (if i + 1 < |s| then s[i + 1] else past).None? then i
    else TailFrom(s, i + 1, past)
  }

  /** The index of the last segment, with the slot beyond the array read as
      empty: the last slot of the leading run of occupied slots. */
  function TailPosition(s: Slots): (r: nat)
    requires Linked(s)
    ensures r < |s| && s[r].Some?
    ensures r + 1 < |s| ==> s[r + 1].None?
  {
    TailFrom(s, 0, None)
  }

  /** On a contiguous prefix of n segments the tail is at n - 1, and in
      particular at Capacity - 1 once every slot is occupied. */
  lemma TailOfPrefix(s: Slots, n: nat)
    requires ContiguousPrefix(s, n) && 1 <= n
    ensures TailPosition(s) == n - 1
  {
  }

  /** Scanning a full body with a non-empty slot beyond the array never
      stops, from any index on, so the scan falls back to 0. */
  lemma {:induction false} TailFromRunsOff(s: Slots, i: nat, p: Point)
    requires forall j :: 0 <= j < |s| ==> s[j].Some?
    ensures TailFrom(s, i, Some(p)) == 0
    decreases |s| - i
  {
    if i < |s| {
      TailFromRunsOff(s, i + 1, p);
    }
  }

  /** Where grow_snake puts a new segment behind the tail `t`: one cell
      further along the heading for Left and Right, and one cell against the
      heading for Up and Down. */
  function GrowthCell(t: Point, d: Direction): (r: Point)
    ensures d == Left || d == Right ==> r == Translate(t, d)
    ensures d == Up || d == Down ==> r == Translate(t, Opposite(d))
  {
    match d
    case Left => Point(t.x - 1, t.y)
    case Right => Point(t.x + 1, t.y)
    case Up => Point(t.x, t.y + 1)
    case Down => Point(t.x, t.y - 1)
  }

  /** grow_snake with the tail index `t` already found: nothing when `t` is
      the last slot, otherwise the slot after `t` gets the growth cell. */
  function GrowAt(s: Slots, d: Direction, t: nat): (r: Slots)
    requires t < |s| && s[t].Some?
    ensures |r| == |s|
    ensures forall i :: 0 <= i < |s| && i != t + 1 ==> r[i] == s[i]
    ensures t + 1 < |s| ==> r[t + 1] == Some(GrowthCell(s[t].value, d))
  {
    if t + 1 == |s| then s else s[t + 1 := Some(GrowthCell(s[t].value, d))]
  }

  /** grow_snake: the growth at the tail found by the scan. */
  function Grown(s: Slots, d: Direction): (r: Slots)
    requires Linked(s)
    ensures Linked(r) && |r| == |s|
    // the segments already there, the head among them, stay where they are
    ensures forall i :: 0 <= i < |s| && s[i].Some? ==> r[i] == s[i]
  {
    GrowAt(s, d, TailPosition(s))
  }

  /** Growth adds exactly one segment, the growth cell behind the old tail,
      unless every slot is already occupied; then it changes nothing. */
  lemma GrowAppends(s: Slots, d: Direction, n: nat)
    requires ContiguousPrefix(s, n) && 1 <= n
    ensures n == |s| ==> Grown(s, d) == s
    ensures n < |s| ==>
              ContiguousPrefix(Grown(s, d), n + 1) &&
              Segments(Grown(s, d)) == Segments(s) + [GrowthCell(Segments(s)[n - 1], d)]
  {
    TailOfPrefix(s, n);
    if n < |s| {
      GrowBelowCapacity(s, d, n);
    }
  }

  /** The growing case of GrowAppends: slot n gets the growth cell. */
  lemma GrowBelowCapacity(s: Slots, d: Direction, n: nat)
    requires ContiguousPrefix(s, n) && 1 <= n < |s|
    ensures ContiguousPrefix(Grown(s, d), n + 1)
    ensures Segments(Grown(s, d)) == Segments(s) + [GrowthCell(Segments(s)[n - 1], d)]
  {
    TailOfPrefix(s, n);
    SegmentsOfPrefix(s, n);
    var g := GrowAt(s, d, n - 1);
    assert g == Grown(s, d);
    assert ContiguousPrefix(g, n + 1);
    SegmentsOfPrefix(g, n + 1);
    var want := Segments(s) + [GrowthCell(Segments(s)[n - 1], d)];
    forall i | 0 <= i < n + 1
      ensures Segments(g)[i] == want[i]
    {
      assert g[i] == Some(Segments(g)[i]);
    }
  }

  /** move_snake: every occupied slot after the head takes the point of the
      slot before it (read before that slot is overwritten, since the copy
      runs from the tail towards the head); then the head takes one step. */
  function Moved(s: Slots, d: Direction): (r: Slots)
    requires Linked(s)
    ensures |r| == |s| && Linked(r)
    // the set of occupied slots is unchanged
    ensures forall i :: 0 <= i < |s| ==> (r[i].Some? <==> s[i].Some?)
    ensures r[0] == Some(Translate(s[0].value, d))
  {
    seq(|s|, i requires 0 <= i < |s| =>
      if i == 0 then Some(Translate(s[0].value, d))
      else if s[i].None? then None
      else s[i - 1])
  }

  /** Chain-follow: after a move the segments are the new head followed by
      all the old segments but the last one; the length is unchanged. */
  lemma MoveShiftsChain(s: Slots, d: Direction, n: nat)
    requires ContiguousPrefix(s, n) && 1 <= n
    ensures ContiguousPrefix(Moved(s, d), n)
    ensures Segments(Moved(s, d)) == [Translate(Segments(s)[0], d)] + Segments(s)[..n - 1]
  {
    PrefixIsLinked(s, n);
    var m := Moved(s, d);
    SegmentsOfPrefix(s, n);
    SegmentsOfPrefix(m, n);
    var want := [Translate(Segments(s)[0], d)] + Segments(s)[..n - 1];
    assert |want| == n;
    forall i | 0 <= i < n
      ensures Segments(m)[i] == want[i]
    {
      assert m[i] == Some(Segments(m)[i]);
      if i > 0 {
        assert s[i - 1] == Some(Segments(s)[i - 1]);
      }
    }
  }

  /** snake_hit_itself: some occupied slot other than the head holds the
      head's point. */
  predicate HitsItself(s: Slots)
    requires Linked(s)
    // no hit exactly when every non-empty slot after the head differs from
    // the head in X or in Y
    ensures !HitsItself(s) <==>
              forall i :: 1 <= i < |s| && s[i].Some? ==>
                s[i].value.x != s[0].value.x || s[i].value.y != s[0].value.y
  {
    exists i :: 1 <= i < |s| && s[i] == s[0]
  }

  /** On the chain of segments: the head hits itself exactly when its point
      appears again among the other segments. */
  lemma HitsItselfOnChain(s: Slots, n: nat)
    requires ContiguousPrefix(s, n) && 1 <= n
    ensures Linked(s)
    ensures HitsItself(s) <==> Segments(s)[0] in Segments(s)[1..]
  {
    SegmentsOfPrefix(s, n);
    var g := Segments(s);
    if HitsItself(s) {
      var i :| 1 <= i < |s| && s[i] == s[0];
      assert i < n;
      assert g[1..][i - 1] == g[0];
    }
    if g[0] in g[1..] {
      var j :| 0 <= j < |g[1..]| && g[1..][j] == g[0];
      assert s[j + 1] == s[0];
    }
  }

  /** The body built by init_game: head (5,5), then (4,5), other slots empty. */
  function InitialBody(): (r: Slots)
    ensures WellFormed(r) && ContiguousPrefix(r, 2)
    ensures Segments(r) == [Point(StartX, StartY), Point(StartX - 1, StartY)]
  {
    var r := [Some(Point(StartX, StartY)), Some(Point(StartX - 1, StartY))] + seq(Capacity - 2, _ => None);
    SegmentsOfPrefix(r, 2);
    r
  }

  /** The initial snake does not hit itself. */
  lemma InitialDoesNotHitItself()
    ensures !HitsItself(InitialBody())
  {
    HitsItselfOnChain(InitialBody(), 2);
  }

  /** The move of the initial snake to the right: [(5,5),(4,5)] becomes [(6,5),(5,5)]. */
  lemma InitialMoveRight()
    ensures Segments(Moved(InitialBody(), Right)) == [Point(6, 5), Point(5, 5)]
  {
    MoveShiftsChain(InitialBody(), Right, 2);
  }

  /** get_tail_position as written reads one slot past the array when every
      slot is occupied. If that memory is not NULL the scan returns 0, and
      grow_snake then overwrites slot 1 (the neck) instead of doing nothing:
      here a full horizontal snake from (10,5) to (1,5) heading Right gets its
      neck (9,5) replaced by (11,5). */
  lemma TailScanPastFullBody(p: Point)
    ensures ContiguousPrefix(FullRow(), Capacity)
    ensures TailFrom(FullRow(), 0, Some(p)) == 0
    ensures FullRow()[1] == Some(Point(9, 5))
    ensures GrowAt(FullRow(), Right, 0)[1] == Some(Point(11, 5))
    ensures Grown(FullRow(), Right) == FullRow()
  {
    TailFromRunsOff(FullRow(), 0, p);
    GrowAppends(FullRow(), Right, Capacity);
  }

  /** A snake occupying every slot, lying on row 5 from (10,5) back to (1,5). */
  function FullRow(): (r: Slots)
    ensures |r| == Capacity
  {
    seq(Capacity, i requires 0 <= i < Capacity => Some(Point(10 - i, 5)))
  }
}
