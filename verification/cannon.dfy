/** The launcher that slides up and down the left edge of the screen.
    Vertical positions are counted in half-units of the simulation, so the
    speed of 2.5 per tick is the integer 5 and every position is exact. */
module Cannon {

  /** Movement per tick: 2.5 units. */
  const Speed: int := 5

  /** The direction turns to -1 when y is above 350 units. */
  const TurnDownAbove: int := 700

  /** The direction turns to +1 when y is below 150 units. */
  const TurnUpBelow: int := 300

  /** The band the cannon never leaves: [147.5, 352.5] units. */
  const Lowest: int := TurnUpBelow - Speed
  const Highest: int := TurnDownAbove + Speed

  /** Vertical position (half-units) and direction (+1 down the screen's y
      axis, -1 up). */
  datatype Cannon = Cannon(y: int, dir: int)

  /** y = 200 units, direction +1. */
  const Start: Cannon := Cannon(400, 1)

  /** The reachable states: moving with +1 from at least 150 units and at
      most one step past 350, or with -1 from at most 350 units and at most
      one step below 150. */
  predicate InBand(c: Cannon)
  {
    || (c.dir == 1 && TurnUpBelow <= c.y <= Highest)
    || (c.dir == -1 && Lowest <= c.y <= TurnDownAbove)
  }

  /** One loop iteration: possibly reverse, then move one step. */
  function Tick(c: Cannon): (r: Cannon)
    ensures c.y > TurnDownAbove ==> r.dir == -1
    ensures c.y < TurnUpBelow ==> r.dir == 1
    ensures TurnUpBelow <= c.y <= TurnDownAbove ==> r.dir == c.dir
    ensures r.y - c.y == Speed * r.dir
    ensures InBand(c) ==> InBand(r)
  {
    var d := if c.y > TurnDownAbove then -1 else if c.y < TurnUpBelow then 1 else c.dir;
    Cannon(c.y + Speed * d, d)
  }

  /** `n` iterations. */
  function Run(c: Cannon, n: nat): Cannon
    decreases n
  {
    if n == 0 then c else Run(Tick(c), n - 1)
  }

  /** From any state of the band, and so from the start position, the
      cannon stays within [147.5, 352.5] units for ever. */
  lemma {:induction false} RunStaysInBand(c: Cannon, n: nat)
    requires InBand(c)
    ensures InBand(Run(c, n))
    ensures Lowest <= Run(c, n).y <= Highest
    decreases n
  {
    if n > 0 {
      RunStaysInBand(Tick(c), n - 1);
    }
  }

  lemma StartInBand()
    ensures InBand(Start)
  {
  }

  lemma {:induction false} RunSplit(c: Cannon, m: nat, n: nat)
    ensures Run(c, m + n) == Run(Run(c, m), n)
    decreases m
  {
    if m > 0 {
      RunSplit(Tick(c), m - 1, n);
    }
  }

  /** Moving with +1 and not yet past 350 units, the cannon climbs one step
      per tick. */
  lemma {:induction false} Climb(c: Cannon, k: nat)
    requires c.dir == 1 && TurnUpBelow <= c.y
    requires c.y + Speed * k <= Highest
    ensures Run(c, k) == Cannon(c.y + Speed * k, 1)
    decreases k
  {
    if k > 0 {
      assert Tick(c) == Cannon(c.y + Speed, 1);
      Climb(Tick(c), k - 1);
    }
  }

  /** Moving with -1 and not yet below 150 units, the cannon descends one
      step per tick. */
  lemma {:induction false} Descend(c: Cannon, k: nat)
    requires c.dir == -1 && c.y <= TurnDownAbove
    requires Lowest <= c.y - Speed * k
    ensures Run(c, k) == Cannon(c.y - Speed * k, -1)
    decreases k
  {
    if k > 0 {
      assert Tick(c) == Cannon(c.y - Speed, -1);
      Descend(Tick(c), k - 1);
    }
  }

  /** The band is tight: 352.5 units is reached after 61 ticks and 147.5
      units after 143. */
  lemma BandIsTight()
    ensures Run(Start, 61) == Cannon(Highest, 1)
    ensures Run(Start, 143) == Cannon(Lowest, -1)
  {
    Climb(Start, 61);
    RunSplit(Start, 61, 82);
    var top := Cannon(Highest, 1);
    assert Tick(top) == Cannon(TurnDownAbove, -1);
    RunSplit(top, 1, 81);
    Descend(Cannon(TurnDownAbove, -1), 81);
  }
}
