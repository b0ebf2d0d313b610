/** The shot controller: a 100 ms cooldown between shots, an assist mode
    switched on by a roll against the hit count and lasting 2000 ms, and a
    uniformly drawn power outside assist mode. Times are integer
    milliseconds of the game clock; the random draws arrive as parameters. */
module Controller {

  /** A shot needs strictly more than this many ms since `start_time`. */
  const CooldownMs: int := 100

  /** Assist mode lasts while fewer than this many ms have passed since
      `activate_time`. */
  const AssistMs: int := 2000

  /** The initial `activate_time`, far enough in the past that no shot at a
      non-negative time is assisted by it. */
  const NeverActivated: int := -5001

  /** `random.randint(1, 100)` for the assist roll. */
  const RollMin: int := 1
  const RollMax: int := 100

  /** `random.randint(200, 1000)` for the power outside assist mode. */
  const PowerMin: int := 200
  const PowerMax: int := 1000

  datatype Controller = Controller(startTime: int, activateTime: int)

  const Initial: Controller := Controller(0, NeverActivated)

  /** Outcome of one look at the held button: no shot, or a shot with its
      power and whether the model chose it. */
  datatype Decision = Hold | Shoot(assisted: bool, power: real)

  /** Pressing the left button restarts the cooldown clock. */
  function Press(c: Controller, now: int): (r: Controller)
    ensures r.startTime == now
    ensures r.activateTime == c.activateTime
  {
    c.(startTime := now)
  }

  /** One look at the held button at time `now`. `restart` is the second
      clock read that becomes the new `start_time`; `hits` is the number of
      hits in the outcome window; `modelPower` is the model's prediction
      plus its noise, used only in assist mode. */
  function Decide(c: Controller, now: int, restart: int, hits: nat, roll: int,
                  uniformPower: int, modelPower: real): (r: (Controller, Decision))
    requires now <= restart
    requires RollMin <= roll <= RollMax
    requires PowerMin <= uniformPower <= PowerMax
    ensures r.1.Shoot? <==> now - c.startTime > CooldownMs
    ensures r.1.Hold? ==> r.0 == c
    ensures r.1.Shoot? ==> r.0.startTime == restart >= now
    ensures r.0.activateTime != c.activateTime ==> r.1.Shoot? && roll <= hits && r.0.activateTime == now
    ensures r.1.Shoot? && roll <= hits ==> r.0.activateTime == now && r.1.assisted
    ensures hits == 0 ==> r.0.activateTime == c.activateTime
    ensures r.1.Shoot? ==> (r.1.assisted <==> now - r.0.activateTime < AssistMs)
    ensures r.1.Shoot? && r.1.assisted ==> r.1.power == modelPower
    ensures r.1.Shoot? && !r.1.assisted ==> r.1.power == uniformPower as real
    ensures r.1.Shoot? && !r.1.assisted ==> PowerMin as real <= r.1.power <= PowerMax as real
  {
    if now - c.startTime > CooldownMs then
      var activate := if roll <= hits then now else c.activateTime;
      var assisted := now - activate < AssistMs;
      var power := if assisted then modelPower else uniformPower as real;
      (Controller(restart, activate), Shoot(assisted, power))
    else
      (c, Hold)
  }

  /** Two shots with no press in between are more than 100 ms apart. */
  lemma ShotsSpaced(c: Controller, t1: int, restart1: int, t2: int, restart2: int, hits1: nat, hits2: nat,
                    roll1: int, roll2: int, u1: int, u2: int, m1: real, m2: real)
    requires t1 <= restart1 && t2 <= restart2
    requires RollMin <= roll1 <= RollMax && RollMin <= roll2 <= RollMax
    requires PowerMin <= u1 <= PowerMax && PowerMin <= u2 <= PowerMax
    requires Decide(c, t1, restart1, hits1, roll1, u1, m1).1.Shoot?
    requires Decide(Decide(c, t1, restart1, hits1, roll1, u1, m1).0, t2, restart2, hits2, roll2, u2, m2).1.Shoot?
    ensures t2 > t1 + CooldownMs
  {
  }

  /** A press at time `p` holds back every shot until after `p + 100`. */
  lemma PressDelaysShot(c: Controller, p: int, now: int, restart: int, hits: nat, roll: int, u: int, m: real)
    requires now <= restart && RollMin <= roll <= RollMax && PowerMin <= u <= PowerMax
    requires now <= p + CooldownMs
    ensures Decide(Press(c, p), now, restart, hits, roll, u, m) == (Press(c, p), Hold)
  {
  }

  /** The roll threshold is the hit count: with 40 hits a roll of 35 turns
      assist mode on and a roll of 45 does not. */
  lemma RollAgainstHitCount(c: Controller, now: int, u: int, m: real)
    requires now - c.startTime > CooldownMs
    requires now - c.activateTime >= AssistMs
    requires PowerMin <= u <= PowerMax
    ensures Decide(c, now, now, 40, 35, u, m).1 == Shoot(true, m)
    ensures Decide(c, now, now, 40, 45, u, m).1 == Shoot(false, u as real)
  {
  }

  /** Assist mode switched on at `t` still holds at `t + 1999` and is over
      at `t + 2000`, unless a new roll switches it on again. */
  lemma AssistWindow(t: int, start: int, later: int, restart: int, hits: nat, roll: int, u: int, m: real)
    requires later - start > CooldownMs && later <= restart
    requires RollMin <= roll <= RollMax && hits < roll
    requires PowerMin <= u <= PowerMax
    requires later == t + 1999 || later == t + 2000
    ensures Decide(Controller(start, t), later, restart, hits, roll, u, m).1.assisted <==> later == t + 1999
  {
  }

  /** Before any activation no shot at a non-negative time is assisted, and
      with no hit in the window no roll activates: the model is consulted
      only after at least one hit. */
  lemma NoAssistWithoutHit(c: Controller, now: int, restart: int, roll: int, u: int, m: real)
    requires 0 <= now <= restart
    requires RollMin <= roll <= RollMax && PowerMin <= u <= PowerMax
    requires c.activateTime == NeverActivated
    ensures Decide(c, now, restart, 0, roll, u, m).0.activateTime == NeverActivated
    ensures !(Decide(c, now, restart, 0, roll, u, m).1.Shoot? && Decide(c, now, restart, 0, roll, u, m).1.assisted)
  {
  }
}
