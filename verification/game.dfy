/** One iteration of the game loop, as far as the game layer is concerned:
    a button press restarts the cooldown, a held button may fire the idle
    arrow, the oldest of more than 100 fired arrows is evicted, the cannon
    moves and the idle arrow follows it, and the physics step reports its
    contacts to the stick resolution. The model's prediction is an
    uninterpreted function and the engine's contacts are an input. */
module Game {
  import opened Window
  import opened Arrows
  import opened Collision
  import Cannon
  import Controller

  /** Position of the target body. */
  const TargetPos: Vec := Vec(700.0, 535.0)

  /** The cannon's fixed horizontal position. */
  const CannonX: real := 100.0

  /** The idle arrow sits this far right of the cannon: the cannon's
      radius, 25, plus 40. */
  const ArrowOffset: real := 65.0

  datatype Game = Game(world: World, ctl: Controller.Controller, cannon: Cannon.Cannon)

  const Initial: Game := Game(Arrows.Initial, Controller.Initial, Cannon.Start)

  /** What the loop reads from outside in one iteration: the time of a
      left-button press if there was one, whether the button is held, the
      clock, the random draws, the Gaussian noise added to a prediction,
      the model's prediction as it stands in this iteration (the model is
      retrained in place after every hit, so it may differ from one
      iteration to the next), and the contacts the physics step reports. */
  datatype Input = Input(
    press: Option<int>,
    held: bool,
    now: int,
    restart: int,
    roll: int,
    uniformPower: int,
    noise: real,
    predict: Example -> real,
    contacts: seq<Contact>)

  /** The clock never reads negative, the draws stay in their ranges, and
      every target the engine reports is the one target body, which never
      moves. */
  predicate InputOk(i: Input)
  {
    && 0 <= i.now <= i.restart
    && Controller.RollMin <= i.roll <= Controller.RollMax
    && Controller.PowerMin <= i.uniformPower <= Controller.PowerMax
    && forall c :: c in i.contacts && c.other.isTarget ==> c.other.pos == TargetPos
  }

  function CannonY(c: Cannon.Cannon): real
  {
    c.y as real / 2.0
  }

  /** The model input of an assisted shot: target minus cannon, over 100. */
  function Query(c: Cannon.Cannon): (r: Example)
    ensures CannonX + 100.0 * r.dx == TargetPos.x
    ensures CannonY(c) + 100.0 * r.dy == TargetPos.y
  {
    Example((TargetPos.x - CannonX) / 100.0, (TargetPos.y - CannonY(c)) / 100.0)
  }

  /** Where the idle arrow is put after the cannon moves. */
  function IdlePosition(c: Cannon.Cannon): Vec
  {
    Vec(CannonX + ArrowOffset, CannonY(c))
  }

  /** The controller's decision while the button is held. */
  function Choose(g: Game, i: Input): (Controller.Controller, Controller.Decision)
    requires InputOk(i)
  {
    Controller.Decide(g.ctl, i.now, i.restart, Sum(g.world.hitrate), i.roll, i.uniformPower,
                      i.predict(Query(g.cannon)) + i.noise)
  }

  /** The held-button branch: decide, and on a shot launch the idle arrow
      and spawn the next one, red when this shot was assisted. */
  function Shoot(g: Game, i: Input): (r: Game)
    requires InputOk(i)
    ensures r.cannon == g.cannon
    ensures i.now - g.ctl.startTime <= Controller.CooldownMs ==> r == g
    ensures i.now - g.ctl.startTime > Controller.CooldownMs ==>
      && r.ctl.startTime == i.restart
      && r.world.queue == g.world.queue + [g.world.idle]
      && g.world.idle in r.world.arrows
      && r.world.arrows[g.world.idle].initPos == g.world.idlePos
      && (r.world.idleColor == AssistRed <==> i.now - r.ctl.activateTime < Controller.AssistMs)
      && (r.world.idleColor == AssistRed ==>
            r.world.arrows[g.world.idle].initVelX == i.predict(Query(g.cannon)) + i.noise)
      && (r.world.idleColor != AssistRed ==>
            r.world.arrows[g.world.idle].initVelX == i.uniformPower as real)
  {
    var (ctl, d) := Choose(g, i);
    match d
    case Hold => g.(ctl := ctl)
    case Shoot(assisted, power) =>
      Game(Launch(g.world, power, if assisted then AssistRed else Default), ctl, g.cannon)
  }

  /** The part of an iteration before the physics step: the press, the
      held button, the cannon's tick, eviction, and the idle arrow moved
      next to the cannon. */
  function Prepare(g: Game, i: Input): Game
    requires InputOk(i)
  {
    var g0 := if i.press.Some? then g.(ctl := Controller.Press(g.ctl, i.press.value)) else g;
    var g1 := if i.held then Shoot(g0, i) else g0;
    var cannon := Cannon.Tick(g1.cannon);
    Game(Evict(g1.world).(idlePos := IdlePosition(cannon)), g1.ctl, cannon)
  }

  /** One loop iteration. */
  function Iterate(g: Game, i: Input): (r: Game)
    requires InputOk(i)
    ensures r.world.idlePos == IdlePosition(r.cannon)
    ensures r.cannon == Cannon.Tick(g.cannon)
  {
    var h := Prepare(g, i);
    h.(world := Step(h.world, i.contacts))
  }

  /** The invariant between iterations: the bookkeeping invariant, at most
      100 queued arrows, the cannon within its band, and assist mode never
      switched on while the model is untrained. */
  ghost predicate GameOk(g: Game)
  {
    && Valid(g.world)
    && |g.world.queue| <= QueueLimit
    && Cannon.InBand(g.cannon)
    && (g.ctl.activateTime == Controller.NeverActivated || g.world.trainCalls >= 1)
  }

  lemma InitialOk()
    ensures GameOk(Initial)
  {
    Arrows.InitialValid();
    Cannon.StartInBand();
  }

  /** The model is consulted only after it has been trained at least once:
      an assisted shot needs a hit recorded before it. */
  lemma AssistOnlyWhenTrained(g: Game, i: Input)
    requires GameOk(g) && InputOk(i)
    requires Choose(g, i).1.Shoot? && Choose(g, i).1.assisted
    ensures g.world.trainCalls >= 1
    ensures Choose(g, i).1.power == i.predict(Query(g.cannon)) + i.noise
  {
    var (ctl, d) := Choose(g, i);
    if ctl.activateTime == g.ctl.activateTime {
      assert g.ctl.activateTime != Controller.NeverActivated;
    } else {
      assert 1 <= Sum(g.world.hitrate);
    }
  }

  lemma ShootOk(g: Game, i: Input)
    requires GameOk(g) && InputOk(i)
    ensures Valid(Shoot(g, i).world)
    ensures |Shoot(g, i).world.queue| <= QueueLimit + 1
    ensures Shoot(g, i).world.trainCalls == g.world.trainCalls
    ensures Shoot(g, i).cannon == g.cannon
    ensures var c := Shoot(g, i).ctl;
      c.activateTime == Controller.NeverActivated || g.world.trainCalls >= 1
  {
    var (ctl, d) := Choose(g, i);
    if ctl.activateTime != g.ctl.activateTime {
      assert 1 <= Sum(g.world.hitrate);
    }
    if d.Shoot? {
      LaunchKeepsValid(g.world, d.power, if d.assisted then AssistRed else Default);
    }
  }

  /** The idle arrow's position is not part of the invariant. */
  lemma MoveIdleOk(w: World, p: Vec)
    requires Valid(w)
    ensures Valid(w.(idlePos := p))
  {
    var m := w.(idlePos := p);
    assert WindowsOk(m) && IdsOk(m) && ListsOk(m);
    MoveIdleArrows(w, p);
    MoveIdleJoints(w, p);
  }

  lemma MoveIdleArrows(w: World, p: Vec)
    requires ArrowsOk(w, {})
    ensures ArrowsOk(w.(idlePos := p), {})
  {
    var m := w.(idlePos := p);
    forall a | a in m.arrows
      ensures Settled(m, a)
    {
      assert Settled(w, a);
    }
  }

  lemma MoveIdleJoints(w: World, p: Vec)
    requires JointsOk(w)
    ensures JointsOk(w.(idlePos := p))
  {
    var m := w.(idlePos := p);
    forall j | j in m.joints
      ensures Held(m, j)
    {
      assert Held(w, j);
    }
  }

  /** Every iteration keeps the invariant; at most one arrow joins the
      queue and at most one leaves it. */
  lemma IterateOk(g: Game, i: Input)
    requires GameOk(g) && InputOk(i)
    ensures GameOk(Iterate(g, i))
    ensures var q := g.world.queue; var q' := Iterate(g, i).world.queue;
      q' == q || (|q| > 0 && q' == q[1..]) || q' == q + [g.world.idle] || q' == (q + [g.world.idle])[1..]
  {
    var h := Prepare(g, i);
    PrepareOk(g, i);
    StepRecords(h.world, i.contacts);
    StepKeepsValid(h.world, i.contacts);
  }

  lemma PrepareOk(g: Game, i: Input)
    requires GameOk(g) && InputOk(i)
    ensures GameOk(Prepare(g, i))
    ensures var q := g.world.queue; var q' := Prepare(g, i).world.queue;
      q' == q || (|q| > 0 && q' == q[1..]) || q' == q + [g.world.idle] || q' == (q + [g.world.idle])[1..]
  {
    var g0 := if i.press.Some? then g.(ctl := Controller.Press(g.ctl, i.press.value)) else g;
    assert GameOk(g0);
    var g1 := if i.held then Shoot(g0, i) else g0;
    if i.held {
      ShootOk(g0, i);
    }
    var cannon := Cannon.Tick(g1.cannon);
    var e := Evict(g1.world);
    EvictKeepsValid(g1.world);
    MoveIdleOk(e, IdlePosition(cannon));
  }

  /** A run of iterations. */
  function Run(g: Game, inputs: seq<Input>): Game
    requires forall k :: 0 <= k < |inputs| ==> InputOk(inputs[k])
    decreases |inputs|
  {
    if |inputs| == 0 then g else Run(Iterate(g, inputs[0]), inputs[1..])
  }

  /** From the initial state, every run keeps the invariant: windows of at
      most 100 and 32 entries with the training windows in lockstep, at
      most 100 queued arrows, no joint without its arrow, no resolved arrow
      in flight, the cannon in its band, and no assist before training. */
  lemma {:induction false} RunOk(g: Game, inputs: seq<Input>)
    requires GameOk(g)
    requires forall k :: 0 <= k < |inputs| ==> InputOk(inputs[k])
    ensures GameOk(Run(g, inputs))
    decreases |inputs|
  {
    if |inputs| > 0 {
      IterateOk(g, inputs[0]);
      RunOk(Iterate(g, inputs[0]), inputs[1..]);
    }
  }
}
