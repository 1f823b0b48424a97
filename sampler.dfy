/**
 `random_position_far_enough`: the chained random walk that places the next
 planet. Each candidate is a step from the previously accepted point; it is
 accepted when its X/Z distance to every one of the last 100 accepted points
 is at least `min_dist`, and after 5001 rejected candidates the last one is
 returned anyway.

 The random angle and step length are a `Draw`; `place` is the script's
 `int(last + dist * cos(angle))`, `int(last + dist * sin(angle))` step, kept
 as a function parameter so that no floating-point trigonometry is modelled.
 */
module Sampler {

  datatype Point = Point(x: int, y: int, z: int)

  /** One random draw of the loop: an angle and an integer step length. */
  datatype Draw = Draw(angle: real, dist: int)

  const SpaceOrigin := Point(0, 100, 0)
  /** Only the last `WindowSize` accepted points are consulted. */
  const WindowSize := 100
  /** `attempts > MaxAttempts` ends the loop: 5001 candidates at most. */
  const MaxAttempts := 5000

  /** `existing_positions[-100:]`. */
  function Window(history: seq<Point>): (w: seq<Point>)
    ensures |w| == if |history| < WindowSize then |history| else WindowSize
    ensures w == history[|history| - |w|..]
  {
    if |history| <= WindowSize then history else history[|history| - WindowSize..]
  }

  /** `((x-px)**2 + (z-pz)**2) ** 0.5 < min_dist`, squared. */
  predicate TooClose(x: int, z: int, p: Point, minDist: nat) {
    (x - p.x) * (x - p.x) + (z - p.z) * (z - p.z) < minDist * minDist
  }

  predicate FarEnough(c: Point, window: seq<Point>, minDist: nat) {
    forall t :: 0 <= t < |window| ==> !TooClose(c.x, c.z, window[t], minDist)
  }

  /** The candidate a draw yields: a step from the last accepted point, at the space height. */
  function Candidate(history: seq<Point>, draw: Draw, place: (Point, Draw) -> (int, int)): Point
    requires history != []
  {
    var xz := place(history[|history| - 1], draw);
    Point(xz.0, SpaceOrigin.y, xz.1)
  }

  /** The search from candidate `k` on: the first far-enough candidate, or candidate `MaxAttempts`. */
  function SearchFrom(history: seq<Point>, minDist: nat, draws: nat -> Draw,
                      place: (Point, Draw) -> (int, int), k: nat): Point
    requires history != [] && k <= MaxAttempts
    decreases MaxAttempts - k
  {
    var c := Candidate(history, draws(k), place);
    if FarEnough(c, Window(history), minDist) || k == MaxAttempts then c
    else SearchFrom(history, minDist, draws, place, k + 1)
  }

  /** The position the sampler returns for a given history and stream of draws. */
  function Sample(history: seq<Point>, minDist: nat, draws: nat -> Draw,
                  place: (Point, Draw) -> (int, int)): Point
  {
    if history == [] then SpaceOrigin else SearchFrom(history, minDist, draws, place, 0)
  }

  /**
   The sampler loop. `examined` is the number of candidates drawn: none for
   an empty history, otherwise between 1 and 5001; every candidate before the
   last was rejected, and the last was accepted unless the budget ran out.
   */
  method RandomPositionFarEnough(existing: seq<Point>, minDist: nat, draws: nat -> Draw,
                                 place: (Point, Draw) -> (int, int))
    returns (pos: Point, examined: nat)
    ensures pos == Sample(existing, minDist, draws, place)
    ensures existing == [] ==> pos == SpaceOrigin && examined == 0
    ensures existing != [] ==>
      && 1 <= examined <= MaxAttempts + 1
      && pos == Candidate(existing, draws(examined - 1), place)
      && (forall k :: 0 <= k < examined - 1 ==>
            !FarEnough(Candidate(existing, draws(k), place), Window(existing), minDist))
      && (examined <= MaxAttempts ==> FarEnough(pos, Window(existing), minDist))
  {
    if existing == [] {
      return SpaceOrigin, 0;
    }
    var attempts := 0;
    while true
      invariant 0 <= attempts <= MaxAttempts
      invariant forall k :: 0 <= k < attempts ==>
        !FarEnough(Candidate(existing, draws(k), place), Window(existing), minDist)
      decreases MaxAttempts - attempts
    {
      var last := existing[|existing| - 1];
      var xz := place(last, draws(attempts));
      pos := Point(xz.0, SpaceOrigin.y, xz.1);
      var window := existing[|existing| - (if |existing| < WindowSize then |existing| else WindowSize)..];
      var tooClose := ScanWindow(pos, window, minDist);
      assert window == Window(existing);
      assert pos == Candidate(existing, draws(attempts), place);
      if !tooClose {
        SampleIsFirstAccepted(existing, minDist, draws, place, attempts);
        return pos, attempts + 1;
      }
      assert !FarEnough(Candidate(existing, draws(attempts), place), Window(existing), minDist);
      attempts := attempts + 1;
      if attempts > MaxAttempts {
        SampleIsFirstAccepted(existing, minDist, draws, place, attempts - 1);
        return pos, attempts;
      }
    }
  }

  /** The inner scan: whether the candidate is within `minDist` of some point of the window. */
  method ScanWindow(pos: Point, window: seq<Point>, minDist: nat) returns (tooClose: bool)
    ensures tooClose == !FarEnough(pos, window, minDist)
  {
    var j := 0;
    while j < |window|
      invariant 0 <= j <= |window|
      invariant forall t :: 0 <= t < j ==> !TooClose(pos.x, pos.z, window[t], minDist)
    {
      if TooClose(pos.x, pos.z, window[j], minDist) {
        return true;
      }
      j := j + 1;
    }
    return false;
  }

  /** Every position the sampler returns is at the space height. */
  lemma {:induction false} SampleHeight(history: seq<Point>, minDist: nat, draws: nat -> Draw,
                                        place: (Point, Draw) -> (int, int))
    ensures Sample(history, minDist, draws, place).y == SpaceOrigin.y
  {
    if history != [] {
      SearchHeight(history, minDist, draws, place, 0);
    }
  }

  lemma {:induction false} SearchHeight(history: seq<Point>, minDist: nat, draws: nat -> Draw,
                                        place: (Point, Draw) -> (int, int), k: nat)
    requires history != [] && k <= MaxAttempts
    ensures SearchFrom(history, minDist, draws, place, k).y == SpaceOrigin.y
    decreases MaxAttempts - k
  {
    var c := Candidate(history, draws(k), place);
    if !(FarEnough(c, Window(history), minDist) || k == MaxAttempts) {
      SearchHeight(history, minDist, draws, place, k + 1);
    }
  }

  /**
   The sampler's result is pinned down by the candidates: if candidate `k`
   (at most the 5001st) is the first far-enough one, or is the 5001st and
   every one before it was rejected, the result is candidate `k`.
   */
  lemma {:induction false} SampleIsFirstAccepted(history: seq<Point>, minDist: nat, draws: nat -> Draw,
                                                 place: (Point, Draw) -> (int, int), k: nat)
    requires history != [] && k <= MaxAttempts
    requires forall j :: 0 <= j < k ==>
      !FarEnough(Candidate(history, draws(j), place), Window(history), minDist)
    requires FarEnough(Candidate(history, draws(k), place), Window(history), minDist) || k == MaxAttempts
    ensures Sample(history, minDist, draws, place) == Candidate(history, draws(k), place)
  {
    var j := 0;
    while j < k
      invariant 0 <= j <= k
      invariant SearchFrom(history, minDist, draws, place, j) == Sample(history, minDist, draws, place)
    {
      j := j + 1;
    }
  }

  /**
   If any of the 5001 candidates is far enough from the window, the result
   is far enough from it: the minimum distance is waived only when every
   candidate was rejected.
   */
  lemma {:induction false} SampleFarEnoughUnlessExhausted(history: seq<Point>, minDist: nat, draws: nat -> Draw,
                                                          place: (Point, Draw) -> (int, int), k: nat)
    requires history != [] && k <= MaxAttempts
    requires FarEnough(Candidate(history, draws(k), place), Window(history), minDist)
    ensures FarEnough(Sample(history, minDist, draws, place), Window(history), minDist)
  {
    var j := 0;
    while j < MaxAttempts && !FarEnough(Candidate(history, draws(j), place), Window(history), minDist)
      invariant 0 <= j <= k
      invariant forall i :: 0 <= i < j ==>
        !FarEnough(Candidate(history, draws(i), place), Window(history), minDist)
      decreases MaxAttempts - j
    {
      j := j + 1;
    }
    SampleIsFirstAccepted(history, minDist, draws, place, j);
  }

  /**
   Positions older than the last 100 are never consulted: two histories that
   end in the same 100 positions give the same result, whatever came before.
   */
  lemma {:induction false} OlderPositionsIgnored(older1: seq<Point>, older2: seq<Point>, recent: seq<Point>,
                                                 minDist: nat, draws: nat -> Draw, place: (Point, Draw) -> (int, int))
    requires |recent| == WindowSize
    ensures Sample(older1 + recent, minDist, draws, place) == Sample(older2 + recent, minDist, draws, place)
  {
    var h1, h2 := older1 + recent, older2 + recent;
    assert Window(h1) == recent == Window(h2);
    assert h1[|h1| - 1] == recent[WindowSize - 1] == h2[|h2| - 1];
    SearchWindowOnly(h1, h2, minDist, draws, place, 0);
  }

  lemma {:induction false} SearchWindowOnly(h1: seq<Point>, h2: seq<Point>, minDist: nat, draws: nat -> Draw,
                                            place: (Point, Draw) -> (int, int), k: nat)
    requires h1 != [] && h2 != [] && k <= MaxAttempts
    requires Window(h1) == Window(h2) && h1[|h1| - 1] == h2[|h2| - 1]
    ensures SearchFrom(h1, minDist, draws, place, k) == SearchFrom(h2, minDist, draws, place, k)
    decreases MaxAttempts - k
  {
    if k < MaxAttempts {
      SearchWindowOnly(h1, h2, minDist, draws, place, k + 1);
    }
  }

  /**
   The walk is chained: the result is a step `place(last, d)` from the most
   recently accepted point, for one of the first 5001 draws `d`.
   */
  lemma {:induction false} SampleChainsFromLast(history: seq<Point>, minDist: nat, draws: nat -> Draw,
                                                place: (Point, Draw) -> (int, int))
    requires history != []
    ensures exists k :: 0 <= k <= MaxAttempts &&
              var xz := place(history[|history| - 1], draws(k));
              Sample(history, minDist, draws, place) == Point(xz.0, SpaceOrigin.y, xz.1)
  {
    var j := 0;
    while j < MaxAttempts && !FarEnough(Candidate(history, draws(j), place), Window(history), minDist)
      invariant 0 <= j <= MaxAttempts
      invariant forall i :: 0 <= i < j ==>
        !FarEnough(Candidate(history, draws(i), place), Window(history), minDist)
      decreases MaxAttempts - j
    {
      j := j + 1;
    }
    SampleIsFirstAccepted(history, minDist, draws, place, j);
    var xz := place(history[|history| - 1], draws(j));
    assert Sample(history, minDist, draws, place) == Point(xz.0, SpaceOrigin.y, xz.1);
  }
}
