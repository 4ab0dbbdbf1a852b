/**
 The wheel refines the bag of absolute deadlines: every operation keeps the two
 in step, so every run of them fires the same timeouts in the same ticks and in
 the same order.
 */
module WheelRefinement {
  import opened WheelValues

  // ----- adding -----

  lemma {:induction false} SliceAppend<T>(s: seq<Armed<T>>, a: Armed<T>, n: nat, b: nat)
    requires n > 0
    ensures Slice(s + [a], n, b) == Slice(s, n, b) + if a.deadline % n == b then [a] else []
  {
    if s == [] {
      assert s + [a] == [a];
    } else {
      SliceAppend(s[1..], a, n, b);
      assert (s + [a])[1..] == s[1..] + [a];
    }
  }

  lemma {:induction false} ArmedInAppend<T>(now: nat, n: nat, b: nat, es: seq<Entry<T>>, e: Entry<T>)
    requires n > 0 && e.state == Init
    ensures ArmedIn(now, n, b, es + [e]) == ArmedIn(now, n, b, es) + [Armed(e.id, e.task, Deadline(now, n, b, e))]
  {
    if es == [] {
      assert es + [e] == [e];
    } else {
      ArmedInAppend(now, n, b, es[1..], e);
      assert (es + [e])[1..] == es[1..] + [e];
    }
  }

  /** A timeout added with `k` ticks is due `k` ticks from now. */
  lemma AddHolds<T>(w: Wheel<T>, bag: Bag<T>, id: nat, task: T, k: nat)
    requires Holds(w, bag)
    ensures Holds(WheelAdd(w, id, task, k), BagAdd(bag, id, task, k))
  {
    var n, now := |w.buckets|, w.ticked;
    var index := (k + now) % n;
    var e := Entry(id, task, Init, k / n);
    var w', bag' := WheelAdd(w, id, task, k), BagAdd(bag, id, task, k);
    AheadOf(now, n, k);
    DivMod(k, n);
    assert Deadline(now, n, index, e) == now + k;
    forall b: nat | b < n
      ensures BucketHolds(w', bag', b)
    {
      assert BucketHolds(w, bag, b);
      SliceAppend(bag.armed, Armed(id, task, now + k), n, b);
      ArmedInAppend(now, n, b, w.buckets[b], e);
    }
  }

  // ----- cancelling -----

  lemma {:induction false} WithoutNotOverdue<T>(s: seq<Armed<T>>, id: nat, now: nat)
    requires NoneOverdue(s, now)
    ensures NoneOverdue(Without(s, id), now)
  {
    if s != [] {
      WithoutNotOverdue(s[1..], id, now);
    }
  }

  lemma {:induction false} SliceWithout<T>(s: seq<Armed<T>>, n: nat, b: nat, id: nat)
    requires n > 0
    ensures Slice(Without(s, id), n, b) == Without(Slice(s, n, b), id)
  {
    if s != [] {
      SliceWithout(s[1..], n, b, id);
    }
  }

  lemma {:induction false} ArmedInCancel<T>(now: nat, n: nat, b: nat, es: seq<Entry<T>>, id: nat)
    requires n > 0
    ensures ArmedIn(now, n, b, CancelIn(es, id)) == Without(ArmedIn(now, n, b, es), id)
  {
    if es != [] {
      assert CancelIn(es, id)[1..] == CancelIn(es[1..], id);
      ArmedInCancel(now, n, b, es[1..], id);
    }
  }

  /** Cancelling a timeout takes it out of the bag at once, wherever it is. */
  lemma CancelHolds<T>(w: Wheel<T>, bag: Bag<T>, id: nat)
    requires Holds(w, bag)
    ensures Holds(WheelCancel(w, id), BagCancel(bag, id))
  {
    var n := |w.buckets|;
    var w', bag' := WheelCancel(w, id), BagCancel(bag, id);
    WithoutNotOverdue(bag.armed, id, bag.now);
    forall b: nat | b < n
      ensures BucketHolds(w', bag', b)
    {
      assert BucketHolds(w, bag, b);
      assert w'.buckets[b] == CancelIn(w.buckets[b], id);
      ArmedInCancel(w.ticked, n, b, w.buckets[b], id);
      SliceWithout(bag.armed, n, b, id);
    }
  }

  // ----- ticking -----

  function Strip<T>(es: seq<Entry<T>>, now: nat): seq<Armed<T>> {
    if es == [] then [] else [Armed(es[0].id, es[0].task, now)] + Strip(es[1..], now)
  }

  lemma {:induction false} NotDueNotOverdue<T>(s: seq<Armed<T>>, now: nat)
    requires NoneOverdue(s, now)
    ensures NoneOverdue(NotDue(s, now), now + 1)
  {
    if s != [] {
      NotDueNotOverdue(s[1..], now);
    }
  }

  lemma {:induction false} SliceNotDue<T>(s: seq<Armed<T>>, n: nat, b: nat, now: nat)
    requires n > 0
    ensures Slice(NotDue(s, now), n, b) == NotDue(Slice(s, n, b), now)
    ensures b != now % n ==> NotDue(Slice(s, n, b), now) == Slice(s, n, b)
    ensures b == now % n ==> Due(Slice(s, n, b), now) == Due(s, now)
  {
    if s != [] {
      SliceNotDue(s[1..], n, b, now);
    }
  }

  /** The pass over the bucket in turn: what is due now has no rounds left. */
  lemma {:induction false} PassHolds<T>(now: nat, n: nat, b: nat, es: seq<Entry<T>>)
    requires n > 0 && b == now % n
    ensures ArmedIn(now + 1, n, b, Survivors(es)) == NotDue(ArmedIn(now, n, b, es), now)
    ensures Strip(Fired(es), now) == Due(ArmedIn(now, n, b, es), now)
  {
    if es != [] {
      PassHolds(now, n, b, es[1..]);
      AheadNow(now, n);
      AheadLater(now, n, b);
      var e := es[0];
      if e.rounds > 0 {
        assert e.rounds * n == (e.rounds - 1) * n + n;
        assert Deadline(now + 1, n, b, e.(rounds := e.rounds - 1)) == Deadline(now, n, b, e) > now;
      }
    }
  }

  /** The other buckets stand for the same deadlines one tick later. */
  lemma {:induction false} OthersHold<T>(now: nat, n: nat, b: nat, es: seq<Entry<T>>)
    requires n > 0 && b < n && b != now % n
    ensures ArmedIn(now + 1, n, b, es) == ArmedIn(now, n, b, es)
  {
    if es != [] {
      OthersHold(now, n, b, es[1..]);
      AheadLater(now, n, b);
    }
  }

  lemma TickBucket<T>(w: Wheel<T>, bag: Bag<T>, b: nat)
    requires Holds(w, bag) && b < |w.buckets|
    ensures BucketHolds(WheelTick(w).0, BagTick(bag).0, b)
  {
    assert BucketHolds(w, bag, b);
    SliceNotDue(bag.armed, |w.buckets|, b, w.ticked);
    if b == w.ticked % |w.buckets| {
      PassHolds(w.ticked, |w.buckets|, b, w.buckets[b]);
    } else {
      OthersHold(w.ticked, |w.buckets|, b, w.buckets[b]);
    }
  }

  lemma TickFires<T>(w: Wheel<T>, bag: Bag<T>)
    requires Holds(w, bag)
    ensures Strip(WheelTick(w).1, w.ticked) == Due(bag.armed, bag.now)
  {
    var b := w.ticked % |w.buckets|;
    assert BucketHolds(w, bag, b);
    PassHolds(w.ticked, |w.buckets|, b, w.buckets[b]);
    SliceNotDue(bag.armed, |w.buckets|, b, w.ticked);
  }

  /** A tick of the wheel fires what is due in the bag, in the bag's order. */
  lemma TickHolds<T>(w: Wheel<T>, bag: Bag<T>)
    requires Holds(w, bag)
    ensures Holds(WheelTick(w).0, BagTick(bag).0)
    ensures Strip(WheelTick(w).1, w.ticked) == BagTick(bag).1
  {
    TickFires(w, bag);
    NotDueNotOverdue(bag.armed, bag.now);
    forall b: nat | b < |w.buckets|
      ensures BucketHolds(WheelTick(w).0, BagTick(bag).0, b)
    {
      TickBucket(w, bag, b);
    }
  }

  lemma EmptyHolds<T>(w: Wheel<T>)
    requires w.ticked == 0 && |w.buckets| > 0 && forall b :: 0 <= b < |w.buckets| ==> w.buckets[b] == []
    ensures Holds(w, Bag(0, []))
  {}

  // ----- runs -----

  /** A call on the timer. Timeouts are numbered in the order they are added. */
  datatype Event<T> = Add(task: T, ticks: nat) | Cancel(id: nat) | Tick

  /** A timer that has run: its state, the next number, and what it has fired,
      each with the tick it fired in. */
  datatype Timer<S, T> = Timer(state: S, nextId: nat, log: seq<Armed<T>>)

  function EmptyWheel<T>(n: nat): Wheel<T> {
    Wheel(0, seq(n, _ => []))
  }

  function WheelStep<T>(t: Timer<Wheel<T>, T>, e: Event<T>): (t': Timer<Wheel<T>, T>)
    requires |t.state.buckets| > 0
    ensures |t'.state.buckets| == |t.state.buckets|
  {
    match e
    case Add(task, k) => Timer(WheelAdd(t.state, t.nextId, task, k), t.nextId + 1, t.log)
    case Cancel(id) => t.(state := WheelCancel(t.state, id))
    case Tick =>
      var (w, fired) := WheelTick(t.state);
      Timer(w, t.nextId, t.log + Strip(fired, t.state.ticked))
  }

  function BagStep<T>(t: Timer<Bag<T>, T>, e: Event<T>): Timer<Bag<T>, T> {
    match e
    case Add(task, k) => Timer(BagAdd(t.state, t.nextId, task, k), t.nextId + 1, t.log)
    case Cancel(id) => t.(state := BagCancel(t.state, id))
    case Tick =>
      var (b, fired) := BagTick(t.state);
      Timer(b, t.nextId, t.log + fired)
  }

  function WheelFrom<T>(t: Timer<Wheel<T>, T>, es: seq<Event<T>>): (t': Timer<Wheel<T>, T>)
    requires |t.state.buckets| > 0
    ensures |t'.state.buckets| == |t.state.buckets|
    decreases es
  {
    if es == [] then t else WheelFrom(WheelStep(t, es[0]), es[1..])
  }

  function BagFrom<T>(t: Timer<Bag<T>, T>, es: seq<Event<T>>): Timer<Bag<T>, T>
    decreases es
  {
    if es == [] then t else BagFrom(BagStep(t, es[0]), es[1..])
  }

  ghost predicate InStep<T>(t: Timer<Wheel<T>, T>, u: Timer<Bag<T>, T>) {
    Holds(t.state, u.state) && t.nextId == u.nextId && t.log == u.log
  }

  lemma {:induction false} RunsInStep<T>(t: Timer<Wheel<T>, T>, u: Timer<Bag<T>, T>, es: seq<Event<T>>)
    requires InStep(t, u)
    ensures InStep(WheelFrom(t, es), BagFrom(u, es))
    decreases es
  {
    if es != [] {
      match es[0] {
        case Add(task, k) => AddHolds(t.state, u.state, t.nextId, task, k);
        case Cancel(id) => CancelHolds(t.state, u.state, id);
        case Tick => TickHolds(t.state, u.state);
      }
      RunsInStep(WheelStep(t, es[0]), BagStep(u, es[0]), es[1..]);
    }
  }

  /** Whatever the number of buckets, a wheel fires what a bag of deadlines
      fires: the same timeouts, in the same ticks, in the same order. */
  lemma {:induction false} WheelRefinesBag<T>(n: nat, es: seq<Event<T>>)
    requires n > 0
    ensures WheelFrom(Timer(EmptyWheel(n), 0, []), es).log == BagFrom(Timer(Bag(0, []), 0, []), es).log
  {
    EmptyHolds<T>(EmptyWheel(n));
    RunsInStep(Timer(EmptyWheel(n), 0, []), Timer(Bag(0, []), 0, []), es);
  }
}
