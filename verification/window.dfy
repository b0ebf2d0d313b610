/** Bounded sliding windows: the game keeps its recent outcomes and its
    training examples in double-ended queues created with a `maxlen`, so an
    append to a full queue silently drops the oldest entry. */
module Window {

  /** One recorded outcome: 1 for a hit on the target, 0 for anything else. */
  type Bit = b: int | 0 <= b <= 1

  /** `maxlen` of the outcome window. */
  const OutcomeCapacity: nat := 100

  /** `maxlen` of the two training windows (inputs and labels). */
  const TrainingCapacity: nat := 32

  /** The newest `n` elements of `s`, in order. */
  function Last<T>(s: seq<T>, n: nat): (r: seq<T>)
    ensures |r| == if |s| <= n then |s| else n
    ensures forall i :: 0 <= i < |r| ==> r[i] == s[|s| - |r| + i]
  {
    if |s| <= n then s else s[|s| - n..]
  }

  /** `deque.append` on a deque whose `maxlen` is `cap`. */
  function Push<T>(w: seq<T>, x: T, cap: nat): (r: seq<T>)
    ensures |r| == if |w| < cap then |w| + 1 else cap
    ensures 0 < cap ==> r[|r| - 1] == x
    ensures |w| < cap ==> r == w + [x]
    ensures 0 < cap == |w| ==> r == w[1..] + [x]
  {
    Last(w + [x], cap)
  }

  /** Appending the elements of `xs` one after the other. */
  function PushAll<T>(w: seq<T>, xs: seq<T>, cap: nat): seq<T>
    decreases |xs|
  {
    if |xs| == 0 then w else PushAll(Push(w, xs[0], cap), xs[1..], cap)
  }

  /** The newest `n` of `u + t` lie within `t` when `t` has at least `n`. */
  lemma LastOfSuffix<T>(u: seq<T>, t: seq<T>, n: nat)
    requires n <= |t|
    ensures Last(u + t, n) == Last(t, n)
  {
    if |u + t| > n {
      assert (u + t)[|u + t| - n..] == t[|t| - n..];
    }
  }

  lemma LastOfLast<T>(a: seq<T>, b: seq<T>, n: nat)
    ensures Last(Last(a, n) + b, n) == Last(a + b, n)
  {
    if |a| > n {
      var l := Last(a, n);
      var u := a[..|a| - n];
      assert a == u + l;
      assert a + b == u + (l + b);
      LastOfSuffix(u, l + b, n);
    }
  }

  /** However many entries go through a window, it holds exactly the newest
      `cap` of everything ever appended to it. */
  lemma {:induction false} PushAllKeepsNewest<T>(w: seq<T>, xs: seq<T>, cap: nat)
    requires |w| <= cap
    ensures PushAll(w, xs, cap) == Last(w + xs, cap)
    decreases |xs|
  {
    if |xs| == 0 {
      assert w + xs == w;
    } else {
      var x, rest := xs[0], xs[1..];
      var w' := Push(w, x, cap);
      PushAllKeepsNewest(w', rest, cap);
      LastOfLast(w + [x], rest, cap);
      SplitFirst(w, xs);
    }
  }

  lemma SplitFirst<T>(w: seq<T>, xs: seq<T>)
    requires |xs| > 0
    ensures w + [xs[0]] + xs[1..] == w + xs
  {
    assert xs == [xs[0]] + xs[1..];
  }

  /** `sum(hitrate)`: the number of hits in the window. */
  function Sum(w: seq<Bit>): (r: nat)
    ensures r <= |w|
  {
    if |w| == 0 then 0 else w[0] + Sum(w[1..])
  }

  lemma {:induction false} SumAppend(a: seq<Bit>, b: seq<Bit>)
    ensures Sum(a + b) == Sum(a) + Sum(b)
    decreases |a|
  {
    if |a| == 0 {
      assert a + b == b;
    } else {
      assert (a + b)[1..] == a[1..] + b;
      SumAppend(a[1..], b);
    }
  }

  /** Pushing onto an outcome window adds the new bit and, when the window
      was full, takes away the bit that fell off the old end. */
  lemma SumPush(w: seq<Bit>, x: Bit, cap: nat)
    requires 0 < cap && |w| <= cap
    ensures Sum(Push(w, x, cap)) == Sum(w) + x - (if |w| == cap then w[0] else 0)
    ensures Sum(Push(w, x, cap)) <= Sum(w) + x
  {
    assert Sum([x]) == x;
    if |w| < cap {
      assert Push(w, x, cap) == w + [x];
      SumAppend(w, [x]);
    } else {
      assert Push(w, x, cap) == w[1..] + [x];
      SumAppend(w[1..], [x]);
      assert Sum(w) == w[0] + Sum(w[1..]);
    }
  }

  /** The hit count is positive exactly when the window holds a hit. */
  lemma {:induction false} SumPositive(w: seq<Bit>)
    ensures Sum(w) > 0 <==> 1 in w
    decreases |w|
  {
    if |w| > 0 {
      SumPositive(w[1..]);
      assert w == [w[0]] + w[1..];
    }
  }

  /** Five misses in a fresh window: five zero entries and no hit. */
  lemma FiveZeros()
    ensures PushAll([], [0, 0, 0, 0, 0], OutcomeCapacity) == [0, 0, 0, 0, 0]
    ensures Sum(PushAll([], [0, 0, 0, 0, 0], OutcomeCapacity)) == 0
  {
    var misses: seq<Bit> := [0, 0, 0, 0, 0];
    PushAllKeepsNewest([], misses, OutcomeCapacity);
    assert [] + misses == misses;
    SumPositive(misses);
    assert 1 !in misses;
  }
}
