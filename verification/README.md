# Sticky arrows: game-layer bookkeeping

This project models the game layer of the "flying arrows" showcase
(`20240515-pykan/arrow.py`). A cannon slides up and down. It fires arrows at
a target. A physics engine reports collisions. A hit arrow is pinned to
whatever it struck by a pivot joint and a gear joint. The game also keeps:

- a window of the last 100 outcomes (1 = hit on the target, 0 = anything else);
- two windows of at most 32 training examples: inputs are the target's
  displacement from the launch point over 100, labels are the launch velocity;
- a queue of fired arrows, of which the oldest is evicted once there are more than 100.

A shot controller decides the launch power. A roll in [1, 100] that is at
most the number of hits in the outcome window switches on an "assist" mode
for 2000 ms. In that mode the power comes from a learned model; otherwise it
is a uniform integer in [200, 1000].

The physics engine and the learned model are outside the model. Arrows are
opaque identifiers. The model's prediction is an uninterpreted function
`Example -> real`, read afresh in each iteration: the model is retrained in
place after every hit, so the prediction may change from one iteration to
the next. The engine's contacts arrive as an input to each iteration, and
every target they report is the one target body at (700, 535). Time is integer milliseconds. Random draws and the Gaussian noise
are parameters.

Modules:

- `Window` (window.dfy): deques with `maxlen`, and `sum(hitrate)`.
- `Cannon` (cannon.dfy): the oscillation, in half-units so that the 2.5 step is the integer 5.
- `Controller` (controller.dfy): the cooldown, the assist roll and window, and the power choice.
- `Arrows` (arrows.dfy): the world record, the bookkeeping invariant, firing and eviction.
- `Collision` (collision.dfy): the post-solve handler, the keyed post-step callbacks, and stick resolution.
- `Game` (game.dfy): one loop iteration and the invariant kept across runs.

The model keeps these details of the code:

- After an assisted shot, the newly spawned idle arrow is coloured red
  (`create_arrow(color)`), not the arrow just fired.
- The cooldown requires strictly more than 100 ms (`> 100`).
- The assist window is `now - activate_time < 2000`. A decision at
  activation + 2000 is therefore already unassisted.
- The roll is compared with the hit count, not with a normalised rate.
- The model input of an assisted shot is the target's position minus the
  cannon's position. The training input uses the arrow's launch position.
- Eviction does not remove an arrow from the flying list. An arrow that
  never collided stays there after it has left the space.

## Model

| member | source | states |
|---|---|---|
| `Window.Push` | 20240515-pykan/arrow.py:83-85 | Appending to a window of capacity `cap` puts the new entry last. The window grows by one while below capacity. At capacity, exactly the oldest entry is dropped. |
| `Window.PushAllKeepsNewest` | 20240515-pykan/arrow.py:83-85 | After any sequence of appends, a window holds exactly the newest `cap` entries of everything ever appended, in order. |
| `Window.Sum` | 20240515-pykan/arrow.py:157 | The hit count of an outcome window is a natural number no larger than the window's length. |
| `Window.SumPush` | 20240515-pykan/arrow.py:46-48 | Appending an outcome adds it to the hit count and subtracts the outcome that fell off a full window. The count never grows by more than the appended bit. |
| `Window.SumPositive` | 20240515-pykan/arrow.py:157 | The hit count is positive if and only if the window holds a hit. So no roll in [1, 100] can pass while the window holds no hit. |
| `Window.FiveZeros` | 20240515-pykan/arrow.py:47-48 | Five misses in an empty outcome window leave five zero entries and a hit count of 0. |
| `Cannon.Tick` | 20240515-pykan/arrow.py:194-200 | The direction turns to -1 above 350 and to +1 below 150, and is kept in between. The cannon moves 2.5 in the new direction. A tick never leaves the reachable band. |
| `Cannon.RunStaysInBand` | 20240515-pykan/arrow.py:194-200 | From any state of the band, so from the start (y = 200, direction +1), y stays within [147.5, 352.5] after any number of ticks. |
| `Cannon.BandIsTight` | 20240515-pykan/arrow.py:124-125 | Starting from y = 200 going down the screen, y reaches 352.5 after 61 ticks and 147.5 after 143, so the band cannot be narrowed. |
| `Controller.Press` | 20240515-pykan/arrow.py:147-148 | A left-button press restarts the cooldown clock and leaves the assist window alone. |
| `Controller.Decide` | 20240515-pykan/arrow.py:154-168 | A shot happens if and only if more than 100 ms have passed since `start_time`, which then becomes the restart time. `activate_time` changes only on a shot with roll <= hit count, and then becomes now, so it never changes with no hit in the window. The shot is assisted if and only if fewer than 2000 ms have passed since `activate_time`. Assisted power is the model's value; otherwise it is the uniform draw in [200, 1000]. |
| `Controller.ShotsSpaced` | 20240515-pykan/arrow.py:154-155 | Two consecutive shots without a press in between are more than 100 ms apart. |
| `Controller.PressDelaysShot` | 20240515-pykan/arrow.py:147-155 | After a press at time p, no shot happens up to p + 100 and the controller is unchanged. |
| `Controller.RollAgainstHitCount` | 20240515-pykan/arrow.py:157-167 | With 40 hits in the window, a roll of 35 gives an assisted shot at the model's power. A roll of 45 gives the uniform power. |
| `Controller.AssistWindow` | 20240515-pykan/arrow.py:158-160 | Assist mode switched on at t still holds at t + 1999 and is over at t + 2000, unless a new roll switches it on. |
| `Controller.NoAssistWithoutHit` | 20240515-pykan/arrow.py:137-160 | Starting from `activate_time` = -5001 with no hit in the window, no shot at a non-negative time is assisted, and `activate_time` stays -5001. |
| `Arrows.InitialValid` | 20240515-pykan/arrow.py:128-132 | The initial state has empty windows, queue and flying list, and one idle arrow in the space. It satisfies the bookkeeping invariant. |
| `Arrows.Launch` | 20240515-pykan/arrow.py:170-182 | The fired arrow gets a record with its position at launch, the launch velocity, collision type 1, its colour and no joints; no other record changes. It joins the back of both the queue and the flying list. A fresh idle arrow with a new identifier and the requested colour enters the space at the origin. The windows, the trainer and the joints are unchanged. |
| `Arrows.LaunchKeepsValid` | 20240515-pykan/arrow.py:178-182 | Firing keeps the bookkeeping invariant, grows the queue by exactly one, and adds no joint. |
| `Arrows.Evict` | 20240515-pykan/arrow.py:185-189 | With at most 100 queued arrows nothing happens. Otherwise the oldest arrow leaves the queue, and the space loses exactly that arrow. Joints may only be removed, and nothing else changes. |
| `Arrows.EvictKeepsValid` | 20240515-pykan/arrow.py:185-189 | If the queue holds at most 101 arrows (at most one enqueued since the last check), eviction leaves at most 100 and keeps the invariant. No joint is left without its arrow. |
| `Arrows.EvictRemovesOwnJoints` | 20240515-pykan/arrow.py:187-189 | Eviction removes the evicted arrow's pivot and gear, if it has them, and keeps every other joint. |
| `Collision.Register` | 20240515-pykan/arrow.py:63-78 | The registered callbacks cover exactly the arrows with a (0, 1) contact whose arrow still had type 1 when the step began. There is one callback per arrow, and each callback comes from one of the step's contacts. |
| `Collision.RegisterFirstWins` | 20240515-pykan/arrow.py:63-71 | A contact's callback runs if and only if the contact qualifies and no earlier contact of the step qualified for the same arrow: a second registration under an arrow's key is ignored. |
| `Collision.RegisterInOrder` | 20240515-pykan/arrow.py:63-71 | The callbacks run in the order in which they were registered. Of any two callbacks, the earlier one comes from the earlier contact, and each comes from the first qualifying contact of its arrow. |
| `Collision.StepFirstContactDecides` | 20240515-pykan/arrow.py:32-71 | The first qualifying contact of an arrow decides its resolution. After the step, the arrow has collision type 0. It is pinned at that contact's point to the body that contact names, and its gear has that contact's angular offset. It turns green on a hit on the target and otherwise keeps its colour, and nothing else in its record changes. The outcome recorded for the arrow is that contact's outcome. |
| `Collision.Neutralise` | 20240515-pykan/arrow.py:67 | The handler changes only the arrows' records and keeps the set of known arrows. |
| `Collision.NeutraliseSwitches` | 20240515-pykan/arrow.py:67 | Exactly the arrows the handler saw switch to collision type 0; no other field of any record changes. |
| `Collision.RemoveFirst` | 20240515-pykan/arrow.py:57-60 | Removing an arrow that is not in the flying list leaves the list as it is. Otherwise the list loses exactly one entry. |
| `Collision.RemoveFirstDistinct` | 20240515-pykan/arrow.py:57-60 | On a list without repetitions, removal leaves exactly the other entries, still without repetitions. |
| `Collision.RemoveFirstSplits` | 20240515-pykan/arrow.py:57-60 | Removing an arrow that is in the flying list takes out its first occurrence and keeps every other entry in its order: the result is the list before that occurrence followed by the list after it. |
| `Collision.StickArrow` | 20240515-pykan/arrow.py:32-60 | A hit on a body flagged as target appends 1 to the outcome window, the pair ((tx - ix)/100, (ty - iy)/100) to the input window and the launch velocity to the label window, and trains once. Any other body appends 0 and leaves the training windows and the trainer alone. Either way the arrow gets its own pivot at the contact point and its own gear with phase = body angle - arrow angle, both binding it to the body it struck. Both join the space, and the arrow leaves the flying list. A hit turns the arrow green; any other contact keeps its colour. Its launch position and velocity are kept, and so is the idle arrow with its colour. |
| `Collision.TrainingInput` | 20240515-pykan/arrow.py:35-38 | The training input is the displacement from the launch point to the target over 100: the launch point plus 100 times the input is the target. |
| `Collision.Flush` | 20240515-pykan/arrow.py:32-60 | Running the callbacks after the step leaves the queue, the space's arrows, the idle arrow (its identity, position and colour) and the set of fired arrows alone; joints are only added and the flying list only shrinks. |
| `Collision.Step` | 20240515-pykan/arrow.py:63-78 | A physics step does not change the queue, the space's arrows, the idle arrow (its identity, position and colour) or the set of fired arrows. |
| `Collision.FlushRecords` | 20240515-pykan/arrow.py:46-48 | Running the callbacks appends one outcome per callback, in order, and trains once per hit. |
| `Collision.StepKeepsValid` | 20240515-pykan/arrow.py:32-78 | A physics step with any contacts keeps the bookkeeping invariant. |
| `Collision.StepResolvesOnce` | 20240515-pykan/arrow.py:63-78 | Each struck arrow was unresolved and in flight, and is resolved after the step: type 0, its own pivot and gear, out of the flying list. Every other arrow is untouched. |
| `Collision.FlushLeavesOthers` | 20240515-pykan/arrow.py:32-60 | A callback only touches the record of its own arrow. |
| `Collision.StepIgnoresResolved` | 20240515-pykan/arrow.py:67-71 | A resolved arrow is never struck again and its record never changes, whatever the engine reports. So resolution happens at most once per arrow. |
| `Collision.StepRecords` | 20240515-pykan/arrow.py:33-48 | A step appends exactly one outcome per struck arrow to the outcome window, in the order of the callbacks, keeping the newest 100. It trains the model once per hit among them. |
| `Collision.FlushMissesKeepTraining` | 20240515-pykan/arrow.py:33-48 | Callbacks whose contacts all miss the target leave the input and label windows and the trainer unchanged. |
| `Collision.MissesOnFreshHistory` | 20240515-pykan/arrow.py:33-48 | Up to 100 shots that all miss, five for instance, on a fresh history leave one zero per shot and no hit in the outcome window, empty training windows and an untrained model. |
| `Collision.StepQuiet` | 20240515-pykan/arrow.py:133 | If no contact pairs a type-1 arrow with a type-0 shape, the step changes nothing. |
| `Game.Query` | 20240515-pykan/arrow.py:161-164 | The model input of an assisted shot is the target's displacement from the cannon over 100. |
| `Game.Shoot` | 20240515-pykan/arrow.py:152-182 | Within 100 ms of `start_time` nothing changes. Otherwise the idle arrow is fired from where it sits and joins the queue, `start_time` becomes the restart time, and the next idle arrow is red if and only if the shot was in the assist window. A red next arrow means the fired one got the prediction plus noise as its velocity; otherwise it got the uniform draw. |
| `Game.Iterate` | 20240515-pykan/arrow.py:139-204 | After each iteration the cannon has moved one tick and the idle arrow sits 65 units to its right. |
| `Game.InitialOk` | 20240515-pykan/arrow.py:81-138 | The state before the first iteration satisfies the game invariant. |
| `Game.AssistOnlyWhenTrained` | 20240515-pykan/arrow.py:157-164 | An assisted shot is only possible after the model has been trained at least once. Its power is the prediction for (target - cannon)/100 plus the noise. |
| `Game.IterateOk` | 20240515-pykan/arrow.py:139-204 | Each iteration keeps the game invariant. At most one arrow joins the back of the queue and at most one leaves its front. |
| `Game.RunOk` | 20240515-pykan/arrow.py:139-204 | Every run keeps the following, whatever predictions the model gives from one iteration to the next: at most 100 outcomes; at most 32 training examples with inputs and labels in lockstep; hit count <= training calls; at most 100 queued arrows; no joint without its arrow; no resolved arrow in flight; the cannon in its band; assist never on before training. |

## Left out

- The physics engine: integration, collision detection, contact points, joint solving, mass and impulses (lines 99-117, 171-173, 239). Contacts are an input. Only contacts of fired arrows still in the space are considered, because removed bodies do not collide and contacts between arrows never arise. The idle arrow and the target are kinematic and the ground is static, so those pairs produce no contacts. Fired arrows do not touch each other or the idle arrow, because every arrow shape has the same `ShapeFilter(group=1)` (line 26). Only the first contact point of an arbiter is used, as in the code.
- The launch velocity is taken to be the power. The code applies an impulse of `power` along x at `arrow_body.position`, the body's origin, on a body of mass 1 that was at rest. The origin is not the polygon's centre of gravity, but it lies on the impulse's line of action, and the idle arrow is never rotated. So the impulse gives a velocity of `power` along x and no spin.
- Positions, velocities and the `/ 100` quotients of training and model inputs are exact reals. The code computes them in Python floats, so their rounding is not modelled.
- KAN training and prediction (lines 40-45, 81, 161-164). Training is counted in `trainCalls`. The prediction is an uninterpreted function that each iteration supplies, so nothing links it to the training data, and its tensor shapes and float32 rounding are not modelled.
- `model.is_trained` (line 82) is never read and is not modelled.
- `random.randint` and `np.random.normal` become parameters (`roll`, `uniformPower`, `noise`).
- `pygame.time.get_ticks()` becomes `now`. The second read that sets `start_time` becomes `restart >= now`.
- Several button presses in one event poll are represented by the last one, which is the one that sets `start_time`.
- Quitting, mouse-up events, drawing, fonts and the frame clock (lines 92-96, 140-146, 149-150, 210-241).
- Arrow angle alignment from velocity (lines 206-208): floating-point trigonometry.
- Arrow polygon geometry, friction, density and the shape filter in `create_arrow` (lines 16-29). Only collision type 1 and the colour are kept.
- `b.group = 1` (line 68) sets an attribute nothing reads, and is not modelled.
- The metadata side table keeps the records of evicted arrows. The code keeps them too, while the flying list still refers to them.
- `Collision.Step`'s contract states what a step leaves unchanged. What it records and resolves is stated by `Collision.StepRecords`, `Collision.StepResolvesOnce` and `Collision.StepFirstContactDecides`. The order of the callbacks is stated by `Collision.RegisterInOrder`.
