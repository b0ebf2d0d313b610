/** The game-layer bookkeeping of arrows: the two training windows and the
    outcome window, the list of arrows in flight, the FIFO of fired arrows,
    which arrows and joints are in the physics space, and a side table of
    per-arrow metadata (launch position and velocity, collision type,
    colour, stick joints). The physics engine itself is not modelled:
    arrows are opaque identifiers. */
module Arrows {
  import opened Window

  datatype Option<T> = None | Some(value: T)

  datatype Vec = Vec(x: real, y: real)

  type ArrowId = nat

  /** Identity of a body an arrow can strike (the target, the ground). */
  type BodyId = nat

  /** The engine's default colour, the red given to the arrow spawned right
      after an assisted shot, and the green of an arrow that hit the target. */
  datatype Color = Default | AssistRed | HitGreen

  /** The two constraints that hold a stuck arrow: a pivot at the contact
      point and a gear joint frozen at the angle difference at contact. */
  datatype Joint =
    | Pivot(arrow: ArrowId, body: BodyId, anchor: Vec)
    | Gear(arrow: ArrowId, body: BodyId, phase: real)

  datatype Stick = Stick(pivot: Joint, gear: Joint)

  /** Metadata of a fired arrow. */
  datatype Arrow = Arrow(initPos: Vec, initVelX: real, collisionType: int, color: Color, stick: Option<Stick>)

  /** A training input: displacement from launch point to target, divided
      by 100. */
  datatype Example = Example(dx: real, dy: real)

  /** Collision type of every arrow shape when created. */
  const ArrowType: int := 1

  /** The engine's default collision type: the type of the target and the
      ground, and the type an arrow is switched to when it hits. */
  const NeutralType: int := 0

  /** Once the queue of fired arrows is longer than this, the oldest goes. */
  const QueueLimit: nat := 100

  datatype World = World(
    hitrate: seq<Bit>,
    hitarrow: seq<Example>,
    hitlabel: seq<real>,
    trainCalls: nat,
    arrows: map<ArrowId, Arrow>,
    flying: seq<ArrowId>,
    queue: seq<ArrowId>,
    space: set<ArrowId>,
    joints: set<Joint>,
    idle: ArrowId,
    idleColor: Color,
    idlePos: Vec,
    nextId: nat)

  /** Empty windows, an untrained model and one idle arrow at the origin. */
  const Initial: World := World([], [], [], 0, map[], [], [], {0}, {}, 0, Default, Vec(0.0, 0.0), 1)

  predicate Distinct<T(==)>(s: seq<T>)
  {
    forall i, j :: 0 <= i < j < |s| ==> s[i] != s[j]
  }

  /** `s` is the pivot and gear pair of arrow `a`. */
  predicate Owns(a: ArrowId, s: Stick)
  {
    s.pivot.Pivot? && s.gear.Gear? && s.pivot.arrow == a && s.gear.arrow == a
  }

  predicate WindowsOk(w: World)
  {
    && |w.hitrate| <= OutcomeCapacity
    && |w.hitarrow| == |w.hitlabel| <= TrainingCapacity
    && Sum(w.hitrate) <= w.trainCalls
  }

  /** A fired arrow between two physics steps: it is either unresolved
      (collision type 1, in flight, no joints) or resolved (type 0, out of
      the flying list, held by its own pivot and gear). */
  predicate Settled(w: World, a: ArrowId)
    requires a in w.arrows
  {
    var r := w.arrows[a];
    && (r.collisionType == ArrowType || r.collisionType == NeutralType)
    && (a in w.flying <==> r.collisionType == ArrowType)
    && (r.stick.Some? <==> r.collisionType == NeutralType)
    && (r.stick.Some? ==> Owns(a, r.stick.value))
  }

  /** An arrow whose hit was seen by the collision handler in this step and
      whose deferred resolution has not run yet. */
  predicate Awaiting(w: World, a: ArrowId)
  {
    && a in w.arrows && a in w.queue && a in w.flying
    && w.arrows[a].collisionType == NeutralType && w.arrows[a].stick.None?
  }

  /** Joint `j` belongs to an arrow still in the space. */
  predicate Held(w: World, j: Joint)
  {
    && j.arrow in w.arrows && j.arrow in w.queue
    && w.arrows[j.arrow].stick.Some?
    && (j == w.arrows[j.arrow].stick.value.pivot || j == w.arrows[j.arrow].stick.value.gear)
  }

  /** Identifiers: the idle arrow is the newest and has no metadata yet. */
  ghost predicate IdsOk(w: World)
  {
    && w.idle < w.nextId && w.idle !in w.arrows
    && (forall a :: a in w.arrows ==> a < w.nextId)
  }

  /** The queue and the flying list hold fired arrows once each, and the
      space holds exactly the queued arrows and the idle one. */
  ghost predicate ListsOk(w: World)
  {
    && Distinct(w.queue) && Distinct(w.flying)
    && (forall a :: a in w.queue ==> a in w.arrows)
    && (forall a :: a in w.flying ==> a in w.arrows)
    && w.space == (set a | a in w.queue) + {w.idle}
  }

  /** Every fired arrow is settled, except those of `pending`, which are
      awaiting resolution. */
  ghost predicate ArrowsOk(w: World, pending: set<ArrowId>)
  {
    && (forall a :: a in w.arrows && a !in pending ==> Settled(w, a))
    && (forall a :: a in pending ==> Awaiting(w, a))
  }

  /** No joint without its arrow in the space, and no queued stuck arrow
      without both its joints in the space. */
  ghost predicate JointsOk(w: World)
  {
    JointsHeld(w) && SticksInSpace(w)
  }

  ghost predicate JointsHeld(w: World)
  {
    forall j :: j in w.joints ==> Held(w, j)
  }

  /** Both joints of every queued stuck arrow are in the space. */
  ghost predicate SticksInSpace(w: World)
  {
    forall a :: a in w.queue && a in w.arrows && w.arrows[a].stick.Some? ==>
      w.arrows[a].stick.value.pivot in w.joints && w.arrows[a].stick.value.gear in w.joints
  }

  /** The bookkeeping invariant, with the arrows of `pending` allowed to be
      between the collision handler and their deferred resolution. */
  ghost predicate ValidExcept(w: World, pending: set<ArrowId>)
  {
    WindowsOk(w) && IdsOk(w) && ListsOk(w) && ArrowsOk(w, pending) && JointsOk(w)
  }

  /** The invariant between two loop iterations. */
  ghost predicate Valid(w: World)
  {
    ValidExcept(w, {})
  }

  lemma InitialValid()
    ensures Valid(Initial)
  {
    assert (set a | a in Initial.queue) == {};
  }

  /** Firing the idle arrow with launch velocity `power` (an impulse of
      `power` on a body of mass 1 at rest), then spawning a fresh idle
      arrow coloured `nextColor` at the origin. */
  function Launch(w: World, power: real, nextColor: Color): (r: World)
    ensures w.idle in r.arrows && r.arrows[w.idle].initPos == w.idlePos && r.arrows[w.idle].initVelX == power
    ensures r.queue == w.queue + [w.idle] && r.flying == w.flying + [w.idle]
    ensures r.idle == w.nextId && r.space == w.space + {r.idle}
    ensures r.arrows == w.arrows[w.idle := Arrow(w.idlePos, power, ArrowType, w.idleColor, None)]
    ensures r == w.(arrows := r.arrows, flying := r.flying, queue := r.queue, space := r.space, idle := r.idle,
                    idleColor := nextColor, idlePos := Vec(0.0, 0.0), nextId := w.nextId + 1)
  {
    w.(arrows := w.arrows[w.idle := Arrow(w.idlePos, power, ArrowType, w.idleColor, None)],
       flying := w.flying + [w.idle],
       queue := w.queue + [w.idle],
       space := w.space + {w.nextId},
       idle := w.nextId,
       idleColor := nextColor,
       idlePos := Vec(0.0, 0.0),
       nextId := w.nextId + 1)
  }

  lemma LaunchKeepsValid(w: World, power: real, nextColor: Color)
    requires Valid(w)
    ensures Valid(Launch(w, power, nextColor))
    ensures |Launch(w, power, nextColor).queue| == |w.queue| + 1
    ensures Launch(w, power, nextColor).joints == w.joints
  {
    var r := Launch(w, power, nextColor);
    assert WindowsOk(r);
    LaunchLists(w, power, nextColor);
    LaunchArrows(w, power, nextColor);
    LaunchJoints(w, power, nextColor);
  }

  lemma LaunchLists(w: World, power: real, nextColor: Color)
    requires IdsOk(w) && ListsOk(w)
    ensures IdsOk(Launch(w, power, nextColor)) && ListsOk(Launch(w, power, nextColor))
  {
    var r := Launch(w, power, nextColor);
    assert w.idle !in w.queue;
    assert w.idle !in w.flying;
    assert (set a | a in r.queue) == (set a | a in w.queue) + {w.idle};
  }

  lemma LaunchArrows(w: World, power: real, nextColor: Color)
    requires IdsOk(w) && ListsOk(w) && ArrowsOk(w, {})
    ensures ArrowsOk(Launch(w, power, nextColor), {})
  {
    var r := Launch(w, power, nextColor);
    forall a | a in r.arrows
      ensures Settled(r, a)
    {
      if a != w.idle {
        assert Settled(w, a);
      }
    }
  }

  lemma LaunchJoints(w: World, power: real, nextColor: Color)
    requires IdsOk(w) && JointsOk(w)
    ensures JointsOk(Launch(w, power, nextColor))
  {
    LaunchJointsHeld(w, power, nextColor);
    LaunchSticks(w, power, nextColor);
  }

  lemma LaunchJointsHeld(w: World, power: real, nextColor: Color)
    requires IdsOk(w) && JointsHeld(w)
    ensures JointsHeld(Launch(w, power, nextColor))
  {
    var r := Launch(w, power, nextColor);
    forall j | j in r.joints
      ensures Held(r, j)
    {
      assert Held(w, j);
      assert j.arrow != w.idle;
    }
  }

  lemma LaunchSticks(w: World, power: real, nextColor: Color)
    requires IdsOk(w) && SticksInSpace(w)
    ensures SticksInSpace(Launch(w, power, nextColor))
  {
    var r := Launch(w, power, nextColor);
    forall a | a in r.queue && a in r.arrows && r.arrows[a].stick.Some?
      ensures r.arrows[a].stick.value.pivot in r.joints && r.arrows[a].stick.value.gear in r.joints
    {
      assert a != w.idle;
      assert a in w.queue;
    }
  }

  /** The eviction check of one loop iteration: when more than 100 arrows
      are queued, the oldest leaves the queue and the space, its pivot and
      gear with it if it has them. */
  function Evict(w: World): (r: World)
    ensures |w.queue| <= QueueLimit ==> r == w
    ensures |w.queue| > QueueLimit ==> r.queue == w.queue[1..] && r.space == w.space - {w.queue[0]}
    ensures r == w.(queue := r.queue, space := r.space, joints := r.joints)
    ensures r.joints <= w.joints
  {
    if |w.queue| > QueueLimit then
      var oldest := w.queue[0];
      var stuck := if oldest in w.arrows && w.arrows[oldest].stick.Some?
                   then {w.arrows[oldest].stick.value.pivot, w.arrows[oldest].stick.value.gear}
                   else {};
      w.(queue := w.queue[1..], space := w.space - {oldest}, joints := w.joints - stuck)
    else
      w
  }

  /** Eviction keeps the invariant and bounds the queue by 100. */
  lemma EvictKeepsValid(w: World)
    requires Valid(w) && |w.queue| <= QueueLimit + 1
    ensures Valid(Evict(w))
    ensures |Evict(w).queue| <= QueueLimit
  {
    if |w.queue| > QueueLimit {
      EvictLists(w);
      EvictArrows(w);
      EvictJointsExact(w);
      EvictJointsHeld(w);
      StuckOwned(w);
      EvictSticks(w);
      EvictWindows(w);
    }
  }

  lemma EvictWindows(w: World)
    requires WindowsOk(w)
    ensures WindowsOk(Evict(w))
  {
  }

  lemma EvictArrows(w: World)
    requires ArrowsOk(w, {})
    ensures ArrowsOk(Evict(w), {})
  {
    var r := Evict(w);
    forall a | a in r.arrows
      ensures Settled(r, a)
    {
      assert Settled(w, a);
    }
  }

  lemma StuckOwned(w: World)
    requires ArrowsOk(w, {})
    ensures forall a :: a in w.arrows && w.arrows[a].stick.Some? ==> Owns(a, w.arrows[a].stick.value)
  {
    forall a | a in w.arrows && w.arrows[a].stick.Some?
      ensures Owns(a, w.arrows[a].stick.value)
    {
      assert Settled(w, a);
    }
  }

  lemma DequeueDrops(q: seq<ArrowId>)
    requires Distinct(q) && |q| > 0
    ensures Distinct(q[1..])
    ensures forall a :: a in q[1..] <==> a in q && a != q[0]
  {
    forall a | a in q[1..]
      ensures a != q[0]
    {
      var i :| 0 <= i < |q[1..]| && q[1..][i] == a;
      assert q[i + 1] == a;
    }
    assert q == [q[0]] + q[1..];
  }

  lemma EvictLists(w: World)
    requires IdsOk(w) && ListsOk(w) && |w.queue| > QueueLimit
    ensures IdsOk(Evict(w)) && ListsOk(Evict(w))
  {
    var r := Evict(w);
    DequeueDrops(w.queue);
    assert w.idle != w.queue[0];
    assert (set a | a in w.queue) == (set a | a in r.queue) + {w.queue[0]};
  }

  /** The evicted arrow leaves no joint behind, and every other joint
      stays. */
  lemma EvictRemovesOwnJoints(w: World)
    requires Valid(w) && |w.queue| > QueueLimit
    ensures w.queue[0] !in Evict(w).space
    ensures forall j :: j in Evict(w).joints <==> j in w.joints && j.arrow != w.queue[0]
  {
    EvictJointsExact(w);
  }

  lemma EvictJointsExact(w: World)
    requires ArrowsOk(w, {}) && JointsHeld(w) && |w.queue| > QueueLimit
    ensures forall j :: j in Evict(w).joints <==> j in w.joints && j.arrow != w.queue[0]
  {
    var r := Evict(w);
    var oldest := w.queue[0];
    forall j | j in w.joints
      ensures j in r.joints <==> j.arrow != oldest
    {
      assert Held(w, j);
      var s := w.arrows[j.arrow].stick.value;
      assert Owns(j.arrow, s) by { assert Settled(w, j.arrow); }
      if j.arrow != oldest && oldest in w.arrows && w.arrows[oldest].stick.Some? {
        assert Settled(w, oldest);
      }
    }
  }

  lemma EvictJointsHeld(w: World)
    requires ListsOk(w) && JointsHeld(w) && |w.queue| > QueueLimit
    requires forall j :: j in Evict(w).joints <==> j in w.joints && j.arrow != w.queue[0]
    ensures JointsHeld(Evict(w))
  {
    var r := Evict(w);
    DequeueDrops(w.queue);
    forall j | j in r.joints
      ensures Held(r, j)
    {
      assert Held(w, j);
    }
  }

  lemma EvictSticks(w: World)
    requires ListsOk(w) && SticksInSpace(w) && |w.queue| > QueueLimit
    requires forall j :: j in Evict(w).joints <==> j in w.joints && j.arrow != w.queue[0]
    requires forall a :: a in w.arrows && w.arrows[a].stick.Some? ==> Owns(a, w.arrows[a].stick.value)
    ensures SticksInSpace(Evict(w))
  {
    var r := Evict(w);
    DequeueDrops(w.queue);
    forall a | a in r.queue && a in r.arrows && r.arrows[a].stick.Some?
      ensures r.arrows[a].stick.value.pivot in r.joints && r.arrows[a].stick.value.gear in r.joints
    {
      assert a in w.queue && a != w.queue[0];
    }
  }
}
