/**
 What becomes of one timeout over every run of the wheel: when it fires, that it
 fires at most once, and when a cancelled one leaves its bucket.
 */
module WheelFates {
  import opened WheelValues
  import opened WheelRefinement

  /** The entries of timeout `id` in a list. */
  function Of<T>(s: seq<Armed<T>>, id: nat): seq<Armed<T>> {
    if s == [] then []
    else if s[0].id == id then [s[0]] + Of(s[1..], id)
    else Of(s[1..], id)
  }

  /** Whether a timeout with `k` ticks to go fires during `es`: the tick that
      starts with no tick to go comes before any cancel of it. */
  predicate Fires<T>(es: seq<Event<T>>, id: nat, k: nat) {
    es != [] &&
    match es[0]
    case Tick => k == 0 || Fires(es[1..], id, k - 1)
    case Cancel(i) => i != id && Fires(es[1..], id, k)
    case Add(_, _) => Fires(es[1..], id, k)
  }

  function Ticks<T>(es: seq<Event<T>>): nat {
    if es == [] then 0 else (if es[0] == Tick then 1 else 0) + Ticks(es[1..])
  }

  /** `Fires` spelled out: event `j` is the tick in question. */
  lemma {:induction false} FiresMeans<T>(es: seq<Event<T>>, id: nat, k: nat)
    ensures Fires(es, id, k) <==>
      exists j: nat :: j < |es| && es[j] == Tick && Ticks(es[..j]) == k && Cancel(id) !in es[..j]
  {
    if es != [] {
      var k' := if es[0] == Tick then k - 1 else k;
      if es[0] == Tick && k == 0 {
        assert es[..0] == [];
        assert Fires(es, id, k) && es[0] == Tick && Ticks(es[..0]) == k && Cancel(id) !in es[..0];
      } else {
        FiresMeans(es[1..], id, k');
        if Fires(es, id, k) {
          var j: nat :| j < |es[1..]| && es[1..][j] == Tick && Ticks(es[1..][..j]) == k' && Cancel(id) !in es[1..][..j];
          assert es[..j + 1] == [es[0]] + es[1..][..j];
          assert es[j + 1] == Tick && Ticks(es[..j + 1]) == k && Cancel(id) !in es[..j + 1];
        }
        if exists j: nat :: j < |es| && es[j] == Tick && Ticks(es[..j]) == k && Cancel(id) !in es[..j] {
          var j: nat :| j < |es| && es[j] == Tick && Ticks(es[..j]) == k && Cancel(id) !in es[..j];
          assert j > 0;
          assert es[..j] == [es[0]] + es[1..][..j - 1];
          assert es[1..][j - 1] == Tick && Ticks(es[1..][..j - 1]) == k' && Cancel(id) !in es[1..][..j - 1];
        }
      }
    }
  }

  lemma {:induction false} OfConcat<T>(s: seq<Armed<T>>, u: seq<Armed<T>>, id: nat)
    ensures Of(s + u, id) == Of(s, id) + Of(u, id)
  {
    if s == [] {
      assert s + u == u;
    } else {
      OfConcat(s[1..], u, id);
      assert (s + u)[1..] == s[1..] + u;
    }
  }

  lemma {:induction false} OfWithout<T>(s: seq<Armed<T>>, i: nat, id: nat)
    ensures Of(Without(s, i), id) == if i == id then [] else Of(s, id)
  {
    if s != [] {
      OfWithout(s[1..], i, id);
    }
  }

  lemma {:induction false} OfDue<T>(s: seq<Armed<T>>, now: nat, id: nat)
    ensures Of(Due(s, now), id) == Due(Of(s, id), now)
    ensures Of(NotDue(s, now), id) == NotDue(Of(s, id), now)
  {
    if s != [] {
      OfDue(s[1..], now, id);
    }
  }

  predicate IdsBelow<T>(s: seq<Armed<T>>, m: nat) {
    forall i :: 0 <= i < |s| ==> s[i].id < m
  }

  lemma {:induction false} OfFresh<T>(s: seq<Armed<T>>, id: nat)
    requires IdsBelow(s, id)
    ensures Of(s, id) == []
  {
    if s != [] {
      OfFresh(s[1..], id);
    }
  }

  lemma {:induction false} FiltersKeepIds<T>(s: seq<Armed<T>>, m: nat, id: nat, now: nat)
    requires IdsBelow(s, m)
    ensures IdsBelow(Without(s, id), m) && IdsBelow(Due(s, now), m) && IdsBelow(NotDue(s, now), m)
  {
    if s != [] {
      FiltersKeepIds(s[1..], m, id, now);
    }
  }

  ghost predicate Numbered<T>(t: Timer<Bag<T>, T>) {
    IdsBelow(t.state.armed, t.nextId) && IdsBelow(t.log, t.nextId)
  }

  lemma {:induction false} RunsStayNumbered<T>(t: Timer<Bag<T>, T>, es: seq<Event<T>>)
    requires Numbered(t)
    ensures Numbered(BagFrom(t, es))
    decreases es
  {
    if es != [] {
      var id := match es[0] case Cancel(i) => i case _ => 0;
      FiltersKeepIds(t.state.armed, t.nextId, id, t.state.now);
      RunsStayNumbered(BagStep(t, es[0]), es[1..]);
    }
  }

  /** From a state in which timeout `id` is armed once and has not fired. */
  lemma {:induction false} FateOfArmed<T>(t: Timer<Bag<T>, T>, a: Armed<T>, es: seq<Event<T>>)
    requires Of(t.state.armed, a.id) == [a] && Of(t.log, a.id) == []
    requires a.id < t.nextId && a.deadline >= t.state.now
    ensures Of(BagFrom(t, es).log, a.id) == if Fires(es, a.id, a.deadline - t.state.now) then [a] else []
    decreases es
  {
    if es != [] {
      var t' := BagStep(t, es[0]);
      match es[0] {
        case Add(task, k) =>
          OfConcat(t.state.armed, [Armed(t.nextId, task, t.state.now + k)], a.id);
          FateOfArmed(t', a, es[1..]);
        case Cancel(i) =>
          OfWithout(t.state.armed, i, a.id);
          if i == a.id {
            FateOfGone(t', a.id, es[1..]);
          } else {
            FateOfArmed(t', a, es[1..]);
          }
        case Tick =>
          OfDue(t.state.armed, t.state.now, a.id);
          OfConcat(t.log, BagTick(t.state).1, a.id);
          if a.deadline == t.state.now {
            FateOfGone(t', a.id, es[1..]);
          } else {
            FateOfArmed(t', a, es[1..]);
          }
      }
    }
  }

  /** A timeout that is no longer armed never fires again. */
  lemma {:induction false} FateOfGone<T>(t: Timer<Bag<T>, T>, id: nat, es: seq<Event<T>>)
    requires Of(t.state.armed, id) == [] && id < t.nextId
    ensures Of(BagFrom(t, es).log, id) == Of(t.log, id)
    decreases es
  {
    if es != [] {
      match es[0] {
        case Add(task, k) => OfConcat(t.state.armed, [Armed(t.nextId, task, t.state.now + k)], id);
        case Cancel(i) => OfWithout(t.state.armed, i, id);
        case Tick =>
          OfDue(t.state.armed, t.state.now, id);
          OfConcat(t.log, BagTick(t.state).1, id);
      }
      FateOfGone(BagStep(t, es[0]), id, es[1..]);
    }
  }

  lemma {:induction false} BagFiresOnTime<T>(u: Timer<Bag<T>, T>, task: T, k: nat, after: seq<Event<T>>)
    requires Numbered(u)
    ensures Of(BagFrom(BagStep(u, Add(task, k)), after).log, u.nextId)
            == if Fires(after, u.nextId, k) then [Armed(u.nextId, task, u.state.now + k)] else []
  {
    var a := Armed(u.nextId, task, u.state.now + k);
    OfFresh(u.state.armed, u.nextId);
    OfFresh(u.log, u.nextId);
    OfConcat(u.state.armed, [a], u.nextId);
    assert Of([a], u.nextId) == [a];
    FateOfArmed(BagStep(u, Add(task, k)), a, after);
  }

  lemma {:induction false} FiresOnTimeFrom<T>(t: Timer<Wheel<T>, T>, u: Timer<Bag<T>, T>, task: T, k: nat,
                                              after: seq<Event<T>>)
    requires InStep(t, u) && Numbered(u)
    ensures Of(WheelFrom(WheelStep(t, Add(task, k)), after).log, t.nextId)
            == if Fires(after, t.nextId, k) then [Armed(t.nextId, task, t.state.ticked + k)] else []
  {
    AddHolds(t.state, u.state, t.nextId, task, k);
    RunsInStep(WheelStep(t, Add(task, k)), BagStep(u, Add(task, k)), after);
    BagFiresOnTime(u, task, k, after);
  }

  function EmptyBag<T>(): Timer<Bag<T>, T> {
    Timer(Bag(0, []), 0, [])
  }

  function Started<T>(n: nat): Timer<Wheel<T>, T> {
    Timer(EmptyWheel(n), 0, [])
  }

  lemma {:induction false} RunReaches<T>(n: nat, before: seq<Event<T>>, u: Timer<Bag<T>, T>)
    requires n > 0 && u == BagFrom(EmptyBag<T>(), before)
    ensures InStep(WheelFrom(Started<T>(n), before), u) && Numbered(u)
  {
    EmptyHolds<T>(EmptyWheel(n));
    RunsInStep(Started(n), EmptyBag(), before);
    RunsStayNumbered(EmptyBag<T>(), before);
  }

  /**
   A timeout added with `k` ticks when `_ticked` is T runs its task once, in the
   tick that starts with `_ticked == T + k`, if that tick comes and it is not
   cancelled before; otherwise it never runs. So no task runs twice, and none
   runs early, late or after a cancel.
   */
  lemma {:induction false} TimeoutFiresOnTime<T>(n: nat, before: seq<Event<T>>, task: T, k: nat, after: seq<Event<T>>)
    requires n > 0
    ensures var t := WheelFrom(Started(n), before);
      Of(WheelFrom(WheelStep(t, Add(task, k)), after).log, t.nextId)
      == if Fires(after, t.nextId, k) then [Armed(t.nextId, task, t.state.ticked + k)] else []
  {
    var u := BagFrom(EmptyBag<T>(), before);
    RunReaches(n, before, u);
    FiresOnTimeFrom(WheelFrom(Started(n), before), u, task, k, after);
  }

  // ----- cancelled entries leave -----

  predicate Absent<T>(es: seq<Entry<T>>, id: nat) {
    forall i :: 0 <= i < |es| ==> es[i].id != id
  }

  predicate OnlyCancelled<T>(es: seq<Entry<T>>, id: nat) {
    forall i :: 0 <= i < |es| && es[i].id == id ==> es[i].state == Cancelled
  }

  lemma {:induction false} PassDropsCancelled<T>(es: seq<Entry<T>>, id: nat)
    requires OnlyCancelled(es, id)
    ensures Absent(Survivors(es), id)
  {
    if es != [] {
      PassDropsCancelled(es[1..], id);
    }
  }

  /** Since tick `then` timeout `id` has been cancelled: it is gone from every
      bucket visited since, and cancelled in the others. */
  ghost predicate Fading<T>(w: Wheel<T>, then_: nat, id: nat) {
    && |w.buckets| > 0
    && forall b: nat :: b < |w.buckets| ==> FadingIn(w, then_, id, b)
  }

  ghost predicate FadingIn<T>(w: Wheel<T>, then_: nat, id: nat, b: nat)
    requires b < |w.buckets|
  {
    || Absent(w.buckets[b], id)
    || (OnlyCancelled(w.buckets[b], id) && w.ticked <= then_ + Ahead(then_, |w.buckets|, b))
  }

  lemma VisitAt(then_: nat, n: nat, b: nat)
    requires n > 0 && b < n
    ensures (then_ + Ahead(then_, n, b)) % n == b
  {
    DeadlineBucket(then_, n, b, Entry(0, 0, Init, 0));
  }

  lemma FadingStep<T>(t: Timer<Wheel<T>, T>, e: Event<T>, then_: nat, id: nat)
    requires Fading(t.state, then_, id) && id < t.nextId
    ensures Fading(WheelStep(t, e).state, then_, id)
  {
    var w, w' := t.state, WheelStep(t, e).state;
    forall b: nat | b < |w'.buckets|
      ensures FadingIn(w', then_, id, b)
    {
      assert FadingIn(w, then_, id, b);
      if e == Tick {
        if b == w.ticked % |w.buckets| {
          assert OnlyCancelled(w.buckets[b], id);
          PassDropsCancelled(w.buckets[b], id);
        } else {
          VisitAt(then_, |w.buckets|, b);
        }
      }
    }
  }

  lemma {:induction false} FadingRun<T>(t: Timer<Wheel<T>, T>, es: seq<Event<T>>, then_: nat, id: nat)
    requires Fading(t.state, then_, id) && id < t.nextId
    ensures Fading(WheelFrom(t, es).state, then_, id)
    ensures WheelFrom(t, es).state.ticked == t.state.ticked + Ticks(es)
    decreases es
  {
    if es != [] {
      FadingStep(t, es[0], then_, id);
      FadingRun(WheelStep(t, es[0]), es[1..], then_, id);
    }
  }

  /** After as many ticks as there are buckets a cancelled timeout is in no
      bucket any more, whatever rounds it had left. */
  lemma {:induction false} CancelledLeaves<T>(t: Timer<Wheel<T>, T>, id: nat, es: seq<Event<T>>)
    requires |t.state.buckets| > 0 && id < t.nextId && Ticks(es) >= |t.state.buckets|
    ensures forall b :: 0 <= b < |t.state.buckets| ==>
      Absent(WheelFrom(WheelStep(t, Cancel(id)), es).state.buckets[b], id)
  {
    var t' := WheelStep(t, Cancel(id));
    forall b: nat | b < |t'.state.buckets|
      ensures FadingIn(t'.state, t.state.ticked, id, b)
    {
    }
    FadingRun(t', es, t.state.ticked, id);
    var w := WheelFrom(t', es).state;
    forall b: nat | b < |w.buckets|
      ensures Absent(w.buckets[b], id)
    {
      assert FadingIn(w, t.state.ticked, id, b);
    }
  }
}
