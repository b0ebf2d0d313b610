/** Stick resolution. After solving a step the engine reports each contact
    between an arrow shape (collision type 1) and a shape of type 0; the
    handler switches the arrow to type 0 and registers a post-step callback
    keyed by the arrow body, and after the step the registered callbacks
    run in order: they record the outcome, feed the training windows on a
    hit, pin the arrow to what it struck and drop it from the flying list. */
module Collision {
  import opened Window
  import opened Arrows

  /** The body an arrow strikes, as the engine sees it after the step. */
  datatype Body = Body(id: BodyId, isTarget: bool, pos: Vec, angle: real)

  /** One contact reported after solving a step: the arrow, its angle at
      that moment, the struck body, the collision type of the struck shape
      and the first contact point. */
  datatype Contact = Contact(arrow: ArrowId, arrowAngle: real, other: Body, otherType: int, point: Vec)

  /** The handler is registered for the pair (0, 1) only; the engine
      reports contacts of fired arrows still in the space, and the type
      is the one the arrow had when the contact was detected, at the start
      of the step. */
  predicate Qualifies(w: World, c: Contact)
  {
    && c.otherType == NeutralType
    && c.arrow in w.space && c.arrow in w.arrows
    && w.arrows[c.arrow].collisionType == ArrowType
  }

  /** The arrows with a qualifying contact in `cs`. */
  function Struck(w: World, cs: seq<Contact>): set<ArrowId>
  {
    set c | c in cs && Qualifies(w, c) :: c.arrow
  }

  /** The arrows that have a registered callback. */
  function Keys(p: seq<Contact>): set<ArrowId>
  {
    set c | c in p :: c.arrow
  }

  /** The post-step callbacks registered while the handler runs over the
      step's contacts in order. A callback is keyed by the arrow body, and
      a second registration under a key already present is ignored. */
  function Register(w: World, cs: seq<Contact>): (p: seq<Contact>)
    ensures Keys(p) == Struck(w, cs)
    ensures forall i, j :: 0 <= i < j < |p| ==> p[i].arrow != p[j].arrow
    ensures forall c :: c in p ==> c in cs && Qualifies(w, c)
    decreases |cs|
  {
    if |cs| == 0 then []
    else
      var init := cs[..|cs| - 1];
      var p := Register(w, init);
      var c := cs[|cs| - 1];
      StruckSnoc(w, init, c);
      assert cs == init + [c];
      if Qualifies(w, c) && c.arrow !in Keys(p) then
        assert Keys(p + [c]) == Keys(p) + {c.arrow};
        p + [c]
      else
        p
  }

  /** Contact `k` of `cs` qualifies and no earlier contact of `cs`
      qualifies for the same arrow: its registration is the one the engine
      keeps. */
  predicate FirstFor(w: World, cs: seq<Contact>, k: int)
    requires 0 <= k < |cs|
  {
    && Qualifies(w, cs[k])
    && forall m :: 0 <= m < k ==> !(Qualifies(w, cs[m]) && cs[m].arrow == cs[k].arrow)
  }

  /** The callbacks that run are exactly those of the first qualifying
      contact of each arrow: a later registration under the same key is
      ignored. */
  lemma {:induction false} RegisterFirstWins(w: World, cs: seq<Contact>)
    ensures forall c :: c in Register(w, cs) <==> exists k :: 0 <= k < |cs| && cs[k] == c && FirstFor(w, cs, k)
    decreases |cs|
  {
    if |cs| > 0 {
      var init := cs[..|cs| - 1];
      var last := cs[|cs| - 1];
      var p := Register(w, init);
      RegisterFirstWins(w, init);
      assert Register(w, cs) == if Qualifies(w, last) && last.arrow !in Keys(p) then p + [last] else p;
      forall x | x in Register(w, cs)
        ensures exists k :: 0 <= k < |cs| && cs[k] == x && FirstFor(w, cs, k)
      {
        if x in p {
          var k :| 0 <= k < |init| && init[k] == x && FirstFor(w, init, k);
          FirstForPrefix(w, cs, k);
        } else {
          LastIsFirst(w, cs);
        }
      }
      forall x | exists k :: 0 <= k < |cs| && cs[k] == x && FirstFor(w, cs, k)
        ensures x in Register(w, cs)
      {
        var k :| 0 <= k < |cs| && cs[k] == x && FirstFor(w, cs, k);
        if k < |init| {
          FirstForPrefix(w, cs, k);
        } else {
          LastNotRegistered(w, cs);
        }
      }
    }
  }

  /** Dropping the last contact does not change which earlier contacts
      are first for their arrow. */
  lemma FirstForPrefix(w: World, cs: seq<Contact>, k: int)
    requires 0 <= k < |cs| - 1
    ensures cs[..|cs| - 1][k] == cs[k]
    ensures FirstFor(w, cs, k) <==> FirstFor(w, cs[..|cs| - 1], k)
  {
    var init := cs[..|cs| - 1];
    assert forall m :: 0 <= m <= k ==> init[m] == cs[m];
  }

  /** The last contact is first for its arrow when that arrow had no
      qualifying contact before it. */
  lemma LastIsFirst(w: World, cs: seq<Contact>)
    requires |cs| > 0 && Qualifies(w, cs[|cs| - 1])
    requires cs[|cs| - 1].arrow !in Struck(w, cs[..|cs| - 1])
    ensures FirstFor(w, cs, |cs| - 1)
  {
    var init := cs[..|cs| - 1];
    forall m | 0 <= m < |cs| - 1
      ensures !(Qualifies(w, cs[m]) && cs[m].arrow == cs[|cs| - 1].arrow)
    {
      assert init[m] == cs[m];
      assert cs[m] in init;
    }
  }

  lemma LastNotRegistered(w: World, cs: seq<Contact>)
    requires |cs| > 0 && FirstFor(w, cs, |cs| - 1)
    ensures cs[|cs| - 1].arrow !in Struck(w, cs[..|cs| - 1])
  {
  }

  lemma StruckSnoc(w: World, cs: seq<Contact>, c: Contact)
    ensures Struck(w, cs + [c]) == Struck(w, cs) + (if Qualifies(w, c) then {c.arrow} else {})
  {
    assert forall x :: x in cs + [c] <==> x in cs || x == c;
  }

  /** Contacts `x` and `y` are the first qualifying contacts of their
      arrows, and `x` comes earlier in `cs` than `y`. */
  predicate ComesFirst(w: World, cs: seq<Contact>, x: Contact, y: Contact)
  {
    exists k, l :: 0 <= k < l < |cs| && cs[k] == x && cs[l] == y && FirstFor(w, cs, k) && FirstFor(w, cs, l)
  }

  /** The callbacks run in the order of the contacts that registered them:
      of two callbacks, the earlier one comes from an earlier contact, and
      each comes from the first qualifying contact of its arrow. */
  lemma {:induction false} RegisterInOrder(w: World, cs: seq<Contact>)
    ensures forall i, j :: 0 <= i < j < |Register(w, cs)| ==> ComesFirst(w, cs, Register(w, cs)[i], Register(w, cs)[j])
    decreases |cs|
  {
    if |cs| > 0 {
      var init := cs[..|cs| - 1];
      var last := cs[|cs| - 1];
      var p := Register(w, init);
      var q := Register(w, cs);
      RegisterInOrder(w, init);
      RegisterFirstWins(w, init);
      assert q == if Qualifies(w, last) && last.arrow !in Keys(p) then p + [last] else p;
      forall i, j | 0 <= i < j < |q|
        ensures ComesFirst(w, cs, q[i], q[j])
      {
        assert q[i] == p[i];
        if j < |p| {
          assert q[j] == p[j];
          assert ComesFirst(w, init, p[i], p[j]);
          var k, l :| 0 <= k < l < |init| && init[k] == p[i] && init[l] == p[j] && FirstFor(w, init, k) && FirstFor(w, init, l);
          FirstForPrefix(w, cs, k);
          FirstForPrefix(w, cs, l);
          assert cs[k] == q[i] && cs[l] == q[j] && FirstFor(w, cs, k) && FirstFor(w, cs, l);
        } else {
          assert p[i] in p;
          var k :| 0 <= k < |init| && init[k] == p[i] && FirstFor(w, init, k);
          FirstForPrefix(w, cs, k);
          LastIsFirst(w, cs);
          assert q[j] == last;
          assert cs[k] == q[i] && cs[|cs| - 1] == q[j] && FirstFor(w, cs, k) && FirstFor(w, cs, |cs| - 1);
        }
      }
    } else {
      assert Register(w, cs) == [];
    }
  }

  /** The handler's `collision_type = 0` on every arrow it saw. */
  function Neutralise(w: World, ids: set<ArrowId>): (r: World)
    ensures r.arrows.Keys == w.arrows.Keys
    ensures r == w.(arrows := r.arrows)
  {
    w.(arrows := map a | a in w.arrows ::
                   if a in ids then w.arrows[a].(collisionType := NeutralType) else w.arrows[a])
  }

  /** Exactly the arrows of `ids` switch to type 0, and nothing else in
      any record changes. */
  lemma NeutraliseSwitches(w: World, ids: set<ArrowId>, a: ArrowId)
    requires a in w.arrows
    ensures Neutralise(w, ids).arrows[a].collisionType == (if a in ids then NeutralType else w.arrows[a].collisionType)
    ensures Neutralise(w, ids).arrows[a] == w.arrows[a].(collisionType := Neutralise(w, ids).arrows[a].collisionType)
  {
  }

  /** `list.remove` with the `ValueError` swallowed: the first occurrence
      of `x` goes, and a list without `x` is left as it is. */
  function RemoveFirst<T(==)>(s: seq<T>, x: T): (r: seq<T>)
    ensures x !in s ==> r == s
    ensures x in s ==> |r| == |s| - 1
    decreases |s|
  {
    if |s| == 0 then s
    else if s[0] == x then s[1..]
    else [s[0]] + RemoveFirst(s[1..], x)
  }

  /** On a list without repetitions, removal takes out exactly `x`. */
  lemma {:induction false} RemoveFirstDistinct<T>(s: seq<T>, x: T)
    requires Distinct(s)
    ensures Distinct(RemoveFirst(s, x))
    ensures forall y :: y in RemoveFirst(s, x) <==> y in s && y != x
    decreases |s|
  {
    if |s| > 0 {
      assert s == [s[0]] + s[1..];
      if s[0] != x {
        RemoveFirstDistinct(s[1..], x);
        var t := RemoveFirst(s[1..], x);
        assert s[0] !in s[1..];
        assert s[0] !in t;
        assert RemoveFirst(s, x) == [s[0]] + t;
        forall i, j | 0 <= i < j < |[s[0]] + t|
          ensures ([s[0]] + t)[i] != ([s[0]] + t)[j]
        {
          if i == 0 {
            assert ([s[0]] + t)[j] == t[j - 1];
          }
        }
      }
    }
  }

  /** Removal takes out the first occurrence of `x` and keeps every other
      entry, in order. */
  lemma {:induction false} RemoveFirstSplits<T>(s: seq<T>, x: T)
    requires x in s
    ensures exists i :: SplitsAt(s, x, i)
    decreases |s|
  {
    if s[0] == x {
      assert s[..0] + s[1..] == s[1..];
      assert SplitsAt(s, x, 0);
    } else {
      var t := s[1..];
      assert x in t by {
        var k :| 0 <= k < |s| && s[k] == x;
        assert t[k - 1] == x;
      }
      RemoveFirstSplits(t, x);
      var j :| SplitsAt(t, x, j);
      SplitsShift(s, x, j);
    }
  }

  /** `x` first occurs at index `i` of `s`, and removal takes out exactly
      that entry. */
  predicate SplitsAt<T(==)>(s: seq<T>, x: T, i: int)
  {
    0 <= i < |s| && s[i] == x && x !in s[..i] && RemoveFirst(s, x) == s[..i] + s[i + 1..]
  }

  /** A split of the tail at `j` is a split of the whole at `j + 1` when
      the head is not `x`. */
  lemma SplitsShift<T>(s: seq<T>, x: T, j: int)
    requires |s| > 0 && s[0] != x && SplitsAt(s[1..], x, j)
    ensures SplitsAt(s, x, j + 1)
  {
    var t := s[1..];
    assert s[..j + 1] == [s[0]] + t[..j];
    assert s[j + 2..] == t[j + 1..];
    assert RemoveFirst(s, x) == [s[0]] + RemoveFirst(t, x);
  }

  /** The training input of a hit: the target's displacement from the
      arrow's launch point, divided by 100. */
  function TrainingInput(a: Arrow, target: Body): (r: Example)
    ensures a.initPos.x + 100.0 * r.dx == target.pos.x
    ensures a.initPos.y + 100.0 * r.dy == target.pos.y
  {
    Example((target.pos.x - a.initPos.x) / 100.0, (target.pos.y - a.initPos.y) / 100.0)
  }

  /** 1 for a hit on the target, 0 for a contact with anything else. */
  function Outcome(c: Contact): Bit
  {
    if c.other.isTarget then 1 else 0
  }

  /** The deferred callback for one arrow. */
  function StickArrow(w: World, c: Contact): (r: World)
    requires c.arrow in w.arrows
    ensures r.arrows.Keys == w.arrows.Keys
    ensures r.hitrate == Push(w.hitrate, Outcome(c), OutcomeCapacity)
    ensures c.other.isTarget ==>
      && r.hitarrow == Push(w.hitarrow, TrainingInput(w.arrows[c.arrow], c.other), TrainingCapacity)
      && r.hitlabel == Push(w.hitlabel, w.arrows[c.arrow].initVelX, TrainingCapacity)
      && r.trainCalls == w.trainCalls + 1
    ensures !c.other.isTarget ==>
      r.hitarrow == w.hitarrow && r.hitlabel == w.hitlabel && r.trainCalls == w.trainCalls
    ensures r.arrows[c.arrow].stick.Some? && Owns(c.arrow, r.arrows[c.arrow].stick.value)
    ensures r.arrows[c.arrow].stick.value.pivot.anchor == c.point
    ensures r.arrows[c.arrow].stick.value.pivot.body == c.other.id == r.arrows[c.arrow].stick.value.gear.body
    ensures r.arrows[c.arrow].color == if c.other.isTarget then HitGreen else w.arrows[c.arrow].color
    ensures r.arrows[c.arrow].initPos == w.arrows[c.arrow].initPos && r.arrows[c.arrow].initVelX == w.arrows[c.arrow].initVelX
    ensures r.arrows[c.arrow].stick.value.gear.phase == c.other.angle - c.arrowAngle
    ensures r.arrows[c.arrow].collisionType == w.arrows[c.arrow].collisionType
    ensures forall a :: a in w.arrows && a != c.arrow ==> r.arrows[a] == w.arrows[a]
    ensures r.flying == RemoveFirst(w.flying, c.arrow)
    ensures r.joints == w.joints + {r.arrows[c.arrow].stick.value.pivot, r.arrows[c.arrow].stick.value.gear}
    ensures r.queue == w.queue && r.space == w.space && r.idle == w.idle && r.idlePos == w.idlePos && r.idleColor == w.idleColor && r.nextId == w.nextId
  {
    var a := w.arrows[c.arrow];
    var pivot := Pivot(c.arrow, c.other.id, c.point);
    var gear := Gear(c.arrow, c.other.id, c.other.angle - c.arrowAngle);
    var scored :=
      if c.other.isTarget then
        w.(hitarrow := Push(w.hitarrow, TrainingInput(a, c.other), TrainingCapacity),
           hitlabel := Push(w.hitlabel, a.initVelX, TrainingCapacity),
           trainCalls := w.trainCalls + 1,
           hitrate := Push(w.hitrate, 1, OutcomeCapacity))
      else
        w.(hitrate := Push(w.hitrate, 0, OutcomeCapacity));
    var color := if c.other.isTarget then HitGreen else a.color;
    scored.(joints := w.joints + {pivot, gear},
            arrows := w.arrows[c.arrow := a.(color := color, stick := Some(Stick(pivot, gear)))],
            flying := RemoveFirst(w.flying, c.arrow))
  }

  /** Running the registered callbacks in order. */
  function Flush(w: World, p: seq<Contact>): (r: World)
    requires forall c :: c in p ==> c.arrow in w.arrows
    ensures r.arrows.Keys == w.arrows.Keys
    ensures w.joints <= r.joints
    ensures |r.flying| <= |w.flying|
    ensures r.queue == w.queue && r.space == w.space && r.idle == w.idle && r.idlePos == w.idlePos && r.idleColor == w.idleColor && r.nextId == w.nextId
    decreases |p|
  {
    if |p| == 0 then w else Flush(StickArrow(w, p[0]), p[1..])
  }

  /** The game-layer effect of one physics step whose contacts are `cs`. */
  function Step(w: World, cs: seq<Contact>): (r: World)
    ensures r.arrows.Keys == w.arrows.Keys
    ensures r.queue == w.queue && r.space == w.space && r.idle == w.idle && r.idlePos == w.idlePos && r.idleColor == w.idleColor && r.nextId == w.nextId
  {
    var p := Register(w, cs);
    var n := Neutralise(w, Keys(p));
    Flush(n, p)
  }

  /** The outcomes the callbacks of `p` record, in order. */
  function Outcomes(p: seq<Contact>): (r: seq<Bit>)
    ensures |r| == |p|
    decreases |p|
  {
    if |p| == 0 then [] else [Outcome(p[0])] + Outcomes(p[1..])
  }

  // ----- the invariant across the handler -----

  lemma NeutraliseArrows(w: World, ids: set<ArrowId>)
    requires IdsOk(w) && ListsOk(w) && ArrowsOk(w, {})
    requires forall a :: a in ids ==> a in w.arrows && a in w.space && w.arrows[a].collisionType == ArrowType
    ensures ArrowsOk(Neutralise(w, ids), ids)
  {
    var n := Neutralise(w, ids);
    forall a | a in n.arrows && a !in ids
      ensures Settled(n, a)
    {
      assert Settled(w, a);
    }
    forall a | a in ids
      ensures Awaiting(n, a)
    {
      assert Settled(w, a);
      assert a != w.idle;
    }
  }

  lemma NeutraliseJoints(w: World, ids: set<ArrowId>)
    requires JointsOk(w)
    ensures JointsOk(Neutralise(w, ids))
  {
    NeutraliseJointsHeld(w, ids);
    NeutraliseSticks(w, ids);
  }

  lemma NeutraliseJointsHeld(w: World, ids: set<ArrowId>)
    requires JointsHeld(w)
    ensures JointsHeld(Neutralise(w, ids))
  {
    var n := Neutralise(w, ids);
    forall j | j in n.joints
      ensures Held(n, j)
    {
      assert Held(w, j);
      NeutraliseSwitches(w, ids, j.arrow);
    }
  }

  lemma NeutraliseSticks(w: World, ids: set<ArrowId>)
    requires SticksInSpace(w)
    ensures SticksInSpace(Neutralise(w, ids))
  {
    var n := Neutralise(w, ids);
    forall a | a in n.queue && a in n.arrows && n.arrows[a].stick.Some?
      ensures n.arrows[a].stick.value.pivot in n.joints && n.arrows[a].stick.value.gear in n.joints
    {
      NeutraliseSwitches(w, ids, a);
    }
  }

  /** After the handler has run, every registered arrow awaits its
      callback and everything else is as between two steps. */
  lemma NeutraliseValid(w: World, p: seq<Contact>)
    requires Valid(w)
    requires forall c :: c in p ==> Qualifies(w, c)
    ensures ValidExcept(Neutralise(w, Keys(p)), Keys(p))
  {
    var n := Neutralise(w, Keys(p));
    NeutraliseArrows(w, Keys(p));
    NeutraliseJoints(w, Keys(p));
    assert WindowsOk(n) && IdsOk(n) && ListsOk(n);
  }

  // ----- the invariant across one callback -----

  lemma StickWindows(w: World, c: Contact)
    requires c.arrow in w.arrows && WindowsOk(w)
    ensures WindowsOk(StickArrow(w, c))
  {
    SumPush(w.hitrate, Outcome(c), OutcomeCapacity);
  }

  lemma StickLists(w: World, c: Contact)
    requires c.arrow in w.arrows && IdsOk(w) && ListsOk(w)
    ensures IdsOk(StickArrow(w, c)) && ListsOk(StickArrow(w, c))
  {
    RemoveFirstDistinct(w.flying, c.arrow);
  }

  lemma StickArrows(w: World, pending: set<ArrowId>, c: Contact)
    requires ListsOk(w) && ArrowsOk(w, pending) && c.arrow in pending
    ensures ArrowsOk(StickArrow(w, c), pending - {c.arrow})
  {
    var r := StickArrow(w, c);
    RemoveFirstDistinct(w.flying, c.arrow);
    assert Awaiting(w, c.arrow);
    forall a | a in r.arrows && a !in pending - {c.arrow}
      ensures Settled(r, a)
    {
      if a != c.arrow {
        assert Settled(w, a);
      }
    }
    forall a | a in pending - {c.arrow}
      ensures Awaiting(r, a)
    {
      assert Awaiting(w, a);
    }
  }

  lemma StickJointsHeld(w: World, pending: set<ArrowId>, c: Contact)
    requires JointsHeld(w) && c.arrow in pending && Awaiting(w, c.arrow)
    ensures JointsHeld(StickArrow(w, c))
  {
    var r := StickArrow(w, c);
    forall j | j in r.joints
      ensures Held(r, j)
    {
      if j in w.joints {
        OldJointHeld(w, c, j);
      } else {
        assert j.arrow == c.arrow;
      }
    }
  }

  /** A joint already in the space belongs to an arrow other than the one
      being resolved, whose record the callback does not touch. */
  lemma OldJointHeld(w: World, c: Contact, j: Joint)
    requires c.arrow in w.arrows && w.arrows[c.arrow].stick.None?
    requires j in w.joints && Held(w, j)
    ensures Held(StickArrow(w, c), j)
  {
    var r := StickArrow(w, c);
    assert j.arrow != c.arrow;
    assert r.arrows[j.arrow] == w.arrows[j.arrow];
  }

  lemma StickSticks(w: World, c: Contact)
    requires SticksInSpace(w) && c.arrow in w.arrows
    ensures SticksInSpace(StickArrow(w, c))
  {
    var r := StickArrow(w, c);
    forall a | a in r.queue && a in r.arrows && r.arrows[a].stick.Some?
      ensures r.arrows[a].stick.value.pivot in r.joints && r.arrows[a].stick.value.gear in r.joints
    {
      if a != c.arrow {
        assert w.arrows[a] == r.arrows[a];
      }
    }
  }

  /** One callback resolves its arrow and keeps the invariant for the
      others still waiting. */
  lemma StickValid(w: World, pending: set<ArrowId>, c: Contact)
    requires ValidExcept(w, pending) && c.arrow in pending
    ensures c.arrow in w.arrows
    ensures ValidExcept(StickArrow(w, c), pending - {c.arrow})
  {
    assert Awaiting(w, c.arrow);
    StickWindows(w, c);
    StickLists(w, c);
    StickArrows(w, pending, c);
    StickJointsHeld(w, pending, c);
    StickSticks(w, c);
  }

  lemma KeysTail(p: seq<Contact>)
    requires |p| > 0
    requires forall i, j :: 0 <= i < j < |p| ==> p[i].arrow != p[j].arrow
    ensures Keys(p[1..]) == Keys(p) - {p[0].arrow}
    ensures forall i, j :: 0 <= i < j < |p[1..]| ==> p[1..][i].arrow != p[1..][j].arrow
  {
    assert p == [p[0]] + p[1..];
    forall c | c in p[1..]
      ensures c.arrow != p[0].arrow
    {
      var k :| 0 <= k < |p[1..]| && p[1..][k] == c;
      assert p[k + 1] == c;
    }
  }

  lemma PendingKnown(w: World, p: seq<Contact>)
    requires ArrowsOk(w, Keys(p))
    ensures forall c :: c in p ==> c.arrow in w.arrows
  {
    forall c | c in p
      ensures c.arrow in w.arrows
    {
      assert Awaiting(w, c.arrow);
    }
  }

  lemma {:induction false} FlushValid(w: World, p: seq<Contact>)
    requires ValidExcept(w, Keys(p))
    requires forall i, j :: 0 <= i < j < |p| ==> p[i].arrow != p[j].arrow
    ensures forall c :: c in p ==> c.arrow in w.arrows
    ensures Valid(Flush(w, p))
    decreases |p|
  {
    PendingKnown(w, p);
    if |p| > 0 {
      StickValid(w, Keys(p), p[0]);
      KeysTail(p);
      FlushValid(StickArrow(w, p[0]), p[1..]);
    } else {
      assert Keys(p) == {};
    }
  }

  /** A physics step keeps the bookkeeping invariant. */
  lemma StepKeepsValid(w: World, cs: seq<Contact>)
    requires Valid(w)
    ensures Valid(Step(w, cs))
  {
    var p := Register(w, cs);
    NeutraliseValid(w, p);
    FlushValid(Neutralise(w, Keys(p)), p);
  }

  // ----- what a step records and resolves -----

  /** The callbacks append one outcome each, in order, and train the model
      once per hit. */
  lemma {:induction false} FlushRecords(w: World, p: seq<Contact>)
    requires forall c :: c in p ==> c.arrow in w.arrows
    ensures Flush(w, p).hitrate == PushAll(w.hitrate, Outcomes(p), OutcomeCapacity)
    ensures Flush(w, p).trainCalls == w.trainCalls + Sum(Outcomes(p))
    decreases |p|
  {
    if |p| > 0 {
      FlushRecords(StickArrow(w, p[0]), p[1..]);
      var o := Outcomes(p);
      assert o[0] == Outcome(p[0]) && o[1..] == Outcomes(p[1..]);
    }
  }

  lemma {:induction false} FlushLeavesOthers(w: World, p: seq<Contact>, a: ArrowId)
    requires forall c :: c in p ==> c.arrow in w.arrows
    requires a in w.arrows && a !in Keys(p)
    ensures Flush(w, p).arrows[a] == w.arrows[a]
    decreases |p|
  {
    if |p| > 0 {
      assert p[0] in p;
      assert Keys(p[1..]) <= Keys(p) by {
        forall c | c in p[1..] ensures c in p {}
      }
      FlushLeavesOthers(StickArrow(w, p[0]), p[1..], a);
    }
  }

  lemma {:induction false} FlushKeepsStuck(w: World, p: seq<Contact>, a: ArrowId)
    requires forall c :: c in p ==> c.arrow in w.arrows
    requires a in w.arrows && w.arrows[a].stick.Some?
    ensures Flush(w, p).arrows[a].stick.Some?
    decreases |p|
  {
    if |p| > 0 {
      FlushKeepsStuck(StickArrow(w, p[0]), p[1..], a);
    }
  }

  lemma {:induction false} FlushSticksAll(w: World, p: seq<Contact>)
    requires forall c :: c in p ==> c.arrow in w.arrows
    ensures forall c :: c in p ==> Flush(w, p).arrows[c.arrow].stick.Some?
    decreases |p|
  {
    if |p| > 0 {
      var r := StickArrow(w, p[0]);
      FlushSticksAll(r, p[1..]);
      FlushKeepsStuck(r, p[1..], p[0].arrow);
      forall c | c in p
        ensures Flush(w, p).arrows[c.arrow].stick.Some?
      {
        if c != p[0] {
          var k :| 0 <= k < |p| && p[k] == c;
          assert p[1..][k - 1] == c;
        }
      }
    }
  }

  lemma {:induction false} KeysCount(p: seq<Contact>)
    requires forall i, j :: 0 <= i < j < |p| ==> p[i].arrow != p[j].arrow
    ensures |Keys(p)| == |p|
    decreases |p|
  {
    if |p| == 0 {
      assert Keys(p) == {};
    } else {
      KeysTail(p);
      KeysCount(p[1..]);
      assert p[0] in p;
    }
  }

  /** Each step resolves every struck arrow exactly once: it had collision
      type 1, it now has type 0, its own pivot and gear, and is out of the
      flying list; every other arrow is untouched. */
  lemma StepResolvesOnce(w: World, cs: seq<Contact>)
    requires Valid(w)
    ensures forall a :: a in Struck(w, cs) ==> Resolved(w, Step(w, cs), a)
    ensures forall a :: a in w.arrows && a !in Struck(w, cs) ==> Step(w, cs).arrows[a] == w.arrows[a]
  {
    forall a | a in Struck(w, cs)
      ensures Resolved(w, Step(w, cs), a)
    {
      StruckResolved(w, cs, a);
    }
    forall a | a in w.arrows && a !in Struck(w, cs)
      ensures Step(w, cs).arrows[a] == w.arrows[a]
    {
      UnstruckKept(w, cs, a);
    }
  }

  /** Arrow `a` went from unresolved and in flight in `w` to resolved in
      `r`: type 0, held by its own pivot and gear, out of the flying list. */
  predicate Resolved(w: World, r: World, a: ArrowId)
  {
    && a in w.arrows && w.arrows[a].collisionType == ArrowType && a in w.flying
    && a in r.arrows && r.arrows[a].collisionType == NeutralType && r.arrows[a].stick.Some?
    && Owns(a, r.arrows[a].stick.value) && a !in r.flying
  }

  lemma StruckResolved(w: World, cs: seq<Contact>, a: ArrowId)
    requires Valid(w) && a in Struck(w, cs)
    ensures Resolved(w, Step(w, cs), a)
  {
    var r := Step(w, cs);
    StruckInFlight(w, cs, a);
    StruckStuck(w, cs, a);
    StepKeepsValid(w, cs);
    StuckSettled(r, a);
  }

  /** A struck arrow had type 1 and was in flight when the step began. */
  lemma StruckInFlight(w: World, cs: seq<Contact>, a: ArrowId)
    requires ArrowsOk(w, {}) && a in Struck(w, cs)
    ensures a in w.arrows && w.arrows[a].collisionType == ArrowType && a in w.flying
  {
    var c :| c in cs && Qualifies(w, c) && c.arrow == a;
    assert Settled(w, a);
  }

  /** A struck arrow has its stick after the step. */
  lemma StruckStuck(w: World, cs: seq<Contact>, a: ArrowId)
    requires Valid(w) && a in Struck(w, cs)
    ensures a in w.arrows && Step(w, cs).arrows[a].stick.Some?
  {
    var p := Register(w, cs);
    var n := Neutralise(w, Keys(p));
    NeutraliseValid(w, p);
    PendingKnown(n, p);
    FlushSticksAll(n, p);
    var c :| c in p && c.arrow == a;
  }

  /** Between two steps an arrow with a stick is resolved. */
  lemma StuckSettled(w: World, a: ArrowId)
    requires ArrowsOk(w, {}) && a in w.arrows && w.arrows[a].stick.Some?
    ensures w.arrows[a].collisionType == NeutralType && a !in w.flying && Owns(a, w.arrows[a].stick.value)
  {
    assert Settled(w, a);
  }

  lemma UnstruckKept(w: World, cs: seq<Contact>, a: ArrowId)
    requires Valid(w) && a in w.arrows && a !in Struck(w, cs)
    ensures Step(w, cs).arrows[a] == w.arrows[a]
  {
    var p := Register(w, cs);
    var n := Neutralise(w, Keys(p));
    NeutraliseValid(w, p);
    PendingKnown(n, p);
    FlushLeavesOthers(n, p, a);
  }

  /** An arrow already resolved is never struck again: its record stays as
      it is, whatever the engine reports. */
  lemma StepIgnoresResolved(w: World, cs: seq<Contact>, a: ArrowId)
    requires Valid(w) && a in w.arrows && w.arrows[a].stick.Some?
    ensures a !in Struck(w, cs)
    ensures Step(w, cs).arrows[a] == w.arrows[a]
  {
    assert Settled(w, a);
    StepResolvesOnce(w, cs);
  }

  /** A step appends one outcome per struck arrow to the outcome window,
      keeping the newest 100, and trains the model once per hit. */
  lemma StepRecords(w: World, cs: seq<Contact>)
    requires Valid(w)
    ensures |Outcomes(Register(w, cs))| == |Struck(w, cs)|
    ensures Step(w, cs).hitrate == Last(w.hitrate + Outcomes(Register(w, cs)), OutcomeCapacity)
    ensures Step(w, cs).trainCalls == w.trainCalls + Sum(Outcomes(Register(w, cs)))
  {
    var p := Register(w, cs);
    var n := Neutralise(w, Keys(p));
    KeysCount(p);
    NeutraliseValid(w, p);
    PendingKnown(n, p);
    FlushRecords(n, p);
    PushAllKeepsNewest(w.hitrate, Outcomes(p), OutcomeCapacity);
  }

  /** Outcome `i` recorded by the callbacks of `p` is that of callback `i`. */
  lemma {:induction false} OutcomesAt(p: seq<Contact>, i: int)
    requires 0 <= i < |p|
    ensures Outcomes(p)[i] == Outcome(p[i])
    decreases |p|
  {
    if i > 0 {
      OutcomesAt(p[1..], i - 1);
    }
  }

  /** The stick the callback of contact `c` gives its arrow: a pivot at the
      contact point and a gear with the angular offset at contact time,
      both binding the arrow to the body `c` names. */
  function StickFor(c: Contact): Stick
  {
    Stick(Pivot(c.arrow, c.other.id, c.point), Gear(c.arrow, c.other.id, c.other.angle - c.arrowAngle))
  }

  /** The record the callback of contact `c` leaves for an arrow whose
      record was `a`. */
  function StuckRecord(a: Arrow, c: Contact): Arrow
  {
    a.(color := if c.other.isTarget then HitGreen else a.color, stick := Some(StickFor(c)))
  }

  /** With one callback per arrow, each arrow ends with the record its own
      callback gives it. */
  lemma {:induction false} FlushSticksBy(w: World, p: seq<Contact>, i: int)
    requires forall c :: c in p ==> c.arrow in w.arrows
    requires forall i, j :: 0 <= i < j < |p| ==> p[i].arrow != p[j].arrow
    requires 0 <= i < |p|
    ensures Flush(w, p).arrows[p[i].arrow] == StuckRecord(w.arrows[p[i].arrow], p[i])
    decreases |p|
  {
    var r := StickArrow(w, p[0]);
    KeysTail(p);
    forall c | c in p[1..]
      ensures c.arrow in r.arrows
    {
      assert c in p;
    }
    if i == 0 {
      assert r.arrows[p[0].arrow] == StuckRecord(w.arrows[p[0].arrow], p[0]);
      FlushLeavesOthers(r, p[1..], p[0].arrow);
    } else {
      assert p[1..][i - 1] == p[i];
      assert r.arrows[p[i].arrow] == w.arrows[p[i].arrow];
      FlushSticksBy(r, p[1..], i - 1);
    }
  }

  /** The first qualifying contact of an arrow decides its resolution: the
      arrow is pinned at that contact's point to the body it names, with
      that contact's angular offset, turns green if and only if that body
      is the target, and the outcome recorded for the arrow is that
      contact's. */
  lemma StepFirstContactDecides(w: World, cs: seq<Contact>, k: int)
    requires 0 <= k < |cs| && FirstFor(w, cs, k)
    ensures cs[k].arrow in w.arrows
    ensures Step(w, cs).arrows[cs[k].arrow] == StuckRecord(w.arrows[cs[k].arrow].(collisionType := NeutralType), cs[k])
    ensures exists i :: 0 <= i < |Register(w, cs)| && Register(w, cs)[i] == cs[k] && Outcomes(Register(w, cs))[i] == Outcome(cs[k])
  {
    var p := Register(w, cs);
    var n := Neutralise(w, Keys(p));
    RegisterFirstWins(w, cs);
    assert cs[k] in p;
    var i :| 0 <= i < |p| && p[i] == cs[k];
    assert p[i].arrow in Keys(p);
    forall c | c in p
      ensures c.arrow in n.arrows
    {
    }
    FlushSticksBy(n, p, i);
    NeutraliseSwitches(w, Keys(p), cs[k].arrow);
    OutcomesAt(p, i);
  }

  /** Callbacks for contacts that all miss the target leave the training
      windows and the trainer alone. */
  lemma {:induction false} FlushMissesKeepTraining(w: World, p: seq<Contact>)
    requires forall c :: c in p ==> c.arrow in w.arrows && !c.other.isTarget
    ensures Flush(w, p).hitarrow == w.hitarrow && Flush(w, p).hitlabel == w.hitlabel
    ensures Flush(w, p).trainCalls == w.trainCalls
    decreases |p|
  {
    if |p| > 0 {
      assert p[0] in p;
      forall c | c in p[1..]
        ensures c in p
      {
      }
      FlushMissesKeepTraining(StickArrow(w, p[0]), p[1..]);
    }
  }

  /** Shots that all miss, on a fresh history (five misses, for
      instance): the outcome window holds one zero per shot and no hit,
      the training windows stay empty and the model is never trained. */
  lemma MissesOnFreshHistory(w: World, p: seq<Contact>)
    requires w.hitrate == [] && w.hitarrow == [] && w.hitlabel == [] && w.trainCalls == 0
    requires |p| <= OutcomeCapacity
    requires forall c :: c in p ==> c.arrow in w.arrows && !c.other.isTarget
    ensures |Flush(w, p).hitrate| == |p|
    ensures forall k :: 0 <= k < |p| ==> Flush(w, p).hitrate[k] == 0
    ensures Sum(Flush(w, p).hitrate) == 0
    ensures Flush(w, p).hitarrow == [] && Flush(w, p).hitlabel == [] && Flush(w, p).trainCalls == 0
  {
    var o := Outcomes(p);
    FlushRecords(w, p);
    FlushMissesKeepTraining(w, p);
    MissOutcomes(p);
    PushAllKeepsNewest([], o, OutcomeCapacity);
    assert [] + o == o;
    SumPositive(o);
    assert 1 !in o;
  }

  /** Contacts that all miss record only zeros. */
  lemma MissOutcomes(p: seq<Contact>)
    requires forall c :: c in p ==> !c.other.isTarget
    ensures forall k :: 0 <= k < |p| ==> Outcomes(p)[k] == 0
  {
    forall k | 0 <= k < |p|
      ensures Outcomes(p)[k] == 0
    {
      OutcomesAt(p, k);
      assert p[k] in p;
    }
  }

  /** With no qualifying contact a step changes nothing. */
  lemma StepQuiet(w: World, cs: seq<Contact>)
    requires forall c :: c in cs ==> !Qualifies(w, c)
    ensures Step(w, cs) == w
  {
    var p := Register(w, cs);
    assert Struck(w, cs) == {};
    KeysCount(p);
    assert Neutralise(w, {}).arrows == w.arrows;
  }
}
