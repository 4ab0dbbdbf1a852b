/**
 The hashed wheel timer of HashedWheelTimer.hpp and HashedWheelTimer.cpp, in
 place over timeout objects, proved against the bag of absolute deadlines.
 */
module HashedWheelTimers {
  import opened Arithmetic
  import opened Sequences
  import opened WheelValues
  import opened WheelFates
  import opened WheelRefinement

  const UINT32: nat := 0x1_0000_0000
  const UINT64: nat := 0x1_0000_0000_0000_0000

  // ----- the arithmetic of ticks and buckets -----

  /** Bitwise `&` of two unsigned numbers. */
  function BitAnd(x: nat, y: nat): nat {
    if x == 0 || y == 0 then 0 else 2 * BitAnd(x / 2, y / 2) + (if x % 2 == 1 && y % 2 == 1 then 1 else 0)
  }

  lemma BitAndStep(x: nat, n: nat)
    requires n > 0
    ensures BitAnd(x, 2 * n - 1) == 2 * BitAnd(x / 2, n - 1) + x % 2
  {
    var y := 2 * n - 1;
    assert y / 2 == n - 1 && y % 2 == 1;
  }

  /** Masking with `2^s - 1` is taking the remainder modulo `2^s`. */
  lemma {:induction false} MaskIsMod(x: nat, s: nat)
    ensures BitAnd(x, Pow2(s) - 1) == x % Pow2(s)
  {
    if s > 0 {
      var n := Pow2(s - 1);
      BitAndStep(x, n);
      MaskIsMod(x / 2, s - 1);
      ModTwice(x, n);
    }
  }

  function CeilDiv(x: nat, n: nat): nat
    requires n > 0
  {
    (x + n - 1) / n
  }

  /** `convertExpireMsToTicks`, with its 64-bit sum and its 32-bit result. */
  function ExpireTicks(expireMs: nat, msPerTick: nat): (k: nat)
    requires msPerTick > 0
    ensures k < UINT32
  {
    (expireMs + msPerTick - 1) % UINT64 / msPerTick % UINT32
  }

  /** The conversion rounds up exactly when the number of ticks fits 32 bits. */
  lemma ExpireTicksExactly(expireMs: nat, msPerTick: nat)
    requires expireMs < UINT64 && 0 < msPerTick < UINT32
    ensures ExpireTicks(expireMs, msPerTick) == CeilDiv(expireMs, msPerTick)
      <==> CeilDiv(expireMs, msPerTick) < UINT32
  {
    if CeilDiv(expireMs, msPerTick) < UINT32 {
      SumFits(expireMs, msPerTick);
      SmallMod(expireMs + msPerTick - 1, UINT64);
      SmallMod(CeilDiv(expireMs, msPerTick), UINT32);
    }
  }

  lemma SmallMod(x: nat, n: nat)
    requires x < n
    ensures x % n == x
  {}

  lemma SumFits(expireMs: nat, msPerTick: nat)
    requires 0 < msPerTick < UINT32 && CeilDiv(expireMs, msPerTick) < UINT32
    ensures expireMs + msPerTick - 1 < UINT64
  {
    CeilBounds(expireMs, msPerTick);
    ProductFits(CeilDiv(expireMs, msPerTick) + 1, msPerTick);
  }

  lemma CeilBounds(x: nat, n: nat)
    requires n > 0
    ensures CeilDiv(x, n) * n <= x + n - 1 < (CeilDiv(x, n) + 1) * n
  {}

  lemma ProductFits(a: nat, b: nat)
    requires a <= UINT32 && b <= UINT32
    ensures a * b <= UINT64
  {
    Monotone(a, UINT32, b);
  }

  lemma {:induction false} Monotone(a: nat, b: nat, n: nat)
    requires a <= b
    ensures a * n <= b * n
    ensures n * a <= n * b
  {
    if a < b {
      MultiplesApart(n, a, b);
    }
  }

  /** The bucket index survives the wrap of the 32-bit sum and of the 64-bit
      `_ticked`, because the number of buckets is a power of two. */
  lemma IndexSurvivesWrap(ticks: nat, now: nat, s: nat)
    requires s <= 32
    ensures (ticks + now % UINT64 % Pow2(s)) % UINT32 % Pow2(s) == (ticks + now) % Pow2(s)
    ensures now % UINT64 % Pow2(s) == now % Pow2(s)
  {
    var n := Pow2(s);
    Pow2Values();
    WrapKeepsMod(now, s, 64);
    WrapKeepsMod(ticks + now % n, s, 32);
    AddThenMod(ticks, now, n);
  }

  /**
   With ticks exactly `ms` apart, the tick that starts with `_ticked == j`
   processed at time `(j + 1) * ms`: a timeout added at time `a`, when T ticks
   have been processed, fires more than `expireMs` and less than
   `expireMs + 2 * ms` later.
   */
  lemma FiresWithinTwoTicks(a: nat, T: nat, expireMs: nat, ms: nat)
    requires ms > 0 && T * ms <= a < (T + 1) * ms
    ensures expireMs < (T + CeilDiv(expireMs, ms) + 1) * ms - a < expireMs + 2 * ms
  {
    var k := CeilDiv(expireMs, ms);
    assert expireMs + ms - 1 == k * ms + (expireMs + ms - 1) % ms;
    assert (T + k + 1) * ms == (T + 1) * ms + k * ms == T * ms + ms + k * ms;
  }

  /** Cut to 32 bits, a count that does not fit loses at least 2^32 ticks. */
  lemma CutTicks(expireMs: nat, msPerTick: nat)
    requires expireMs < UINT64 && 0 < msPerTick < UINT32 && CeilDiv(expireMs, msPerTick) >= UINT32
    ensures ExpireTicks(expireMs, msPerTick) + UINT32 <= CeilDiv(expireMs, msPerTick)
  {
    var sum := expireMs + msPerTick - 1;
    if sum >= UINT64 {
      assert sum % UINT64 == sum - UINT64 < msPerTick;
      DivModUnique(sum - UINT64, 0, sum - UINT64, msPerTick);
    } else {
      assert sum % UINT64 == sum;
    }
  }

  lemma FiresTooEarly(a: nat, T: nat, k: nat, expireMs: nat, ms: nat)
    requires ms > 0 && T * ms <= a && k + 2 <= CeilDiv(expireMs, ms)
    ensures (T + k + 1) * ms - a <= expireMs
  {
    CeilBounds(expireMs, ms);
    Monotone(k + 2, CeilDiv(expireMs, ms), ms);
    assert (T + k + 1) * ms == T * ms + (k + 1) * ms && (k + 2) * ms == (k + 1) * ms + ms;
  }

  lemma TheOnlyOne<X>(s: seq<X>, x: X, y: X, c: bool)
    requires x in s && s == if c then [y] else []
    ensures x == y
  {}

  lemma TicksInTimeExactly(a: nat, T: nat, d: nat, expireMs: nat, ms: nat)
    requires 0 < ms < UINT32 && expireMs < UINT64 && T * ms <= a < (T + 1) * ms
    requires d == T + ExpireTicks(expireMs, ms)
    ensures expireMs < (d + 1) * ms - a < expireMs + 2 * ms
      <==> CeilDiv(expireMs, ms) < UINT32
  {
    if CeilDiv(expireMs, ms) < UINT32 {
      ExpireTicksExactly(expireMs, ms);
      FiresWithinTwoTicks(a, T, expireMs, ms);
    } else {
      CutTicks(expireMs, ms);
      FiresTooEarly(a, T, ExpireTicks(expireMs, ms), expireMs, ms);
    }
  }

  /**
   The millisecond bound, over every run: a timeout added at time `a`, with ticks
   `ms` apart of which the one numbered `d` comes at `(d + 1) * ms`, is run more
   than `expireMs` and less than `expireMs + 2 * ms` after it was added, exactly
   when its number of ticks fits 32 bits.
   */
  lemma {:induction false} FiresInTimeExactly<T>(n: nat, before: seq<Event<T>>, task: T, expireMs: nat, ms: nat, a: nat,
                                                 after: seq<Event<T>>, f: Armed<T>)
    requires n > 0 && 0 < ms < UINT32 && expireMs < UINT64
    requires var t := WheelFrom(Started<T>(n), before);
      && t.state.ticked * ms <= a < (t.state.ticked + 1) * ms
      && f in Of(WheelFrom(WheelStep(t, Add(task, ExpireTicks(expireMs, ms))), after).log, t.nextId)
    ensures expireMs < (f.deadline + 1) * ms - a < expireMs + 2 * ms <==> CeilDiv(expireMs, ms) < UINT32
  {
    var t, k := WheelFrom(Started<T>(n), before), ExpireTicks(expireMs, ms);
    TimeoutFiresOnTime(n, before, task, k, after);
    TheOnlyOne(Of(WheelFrom(WheelStep(t, Add(task, k)), after).log, t.nextId), f,
               Armed(t.nextId, task, t.state.ticked + k), Fires(after, t.nextId, k));
    TicksInTimeExactly(a, t.state.ticked, f.deadline, expireMs, ms);
  }

  lemma PlacedIsAdded<T>(w: Wheel<T>, id: nat, task: T, ticks: nat, rounds: nat, index: nat)
    requires |w.buckets| > 0
    requires rounds == ticks / |w.buckets| && index == (ticks + w.ticked) % |w.buckets| < |w.buckets|
    ensures WheelAdd(w, id, task, ticks)
      == w.(buckets := w.buckets[index := w.buckets[index] + [Entry(id, task, Init, rounds)]])
  {}

  function Quotient(x: nat, n: nat): nat
    requires n > 0
  {
    x / n
  }

  /** The masks and the wraps give the bucket of `ticks` ticks from `now`. */
  lemma PlacedRight(ticks: nat, now: nat, s: nat)
    requires s <= 31
    ensures var mask: nat := Pow2(s) - 1;
      BitAnd((ticks + BitAnd(now % UINT64, mask)) % UINT32, mask) == (ticks + now) % Pow2(s)
  {
    var off := BitAnd(now % UINT64, Pow2(s) - 1);
    MaskIsMod(now % UINT64, s);
    MaskIsMod((ticks + off) % UINT32, s);
    IndexSurvivesWrap(ticks, now, s);
  }

  /** The least power of two that is not below `ticksPerWheel`. */
  method CalculateNormalizeShift(ticksPerWheel: nat) returns (shift: nat)
    requires ticksPerWheel <= 0x8000_0000
    ensures shift <= 31 && ticksPerWheel <= Pow2(shift)
    ensures forall s: nat :: ticksPerWheel <= Pow2(s) ==> shift <= s
  {
    shift := 0;
    Pow2Values();
    while Pow2(shift) < ticksPerWheel
      invariant shift <= 31
      invariant forall s: nat :: s < shift ==> Pow2(s) < ticksPerWheel
      decreases 31 - shift
    {
      shift := shift + 1;
    }
  }

  // ----- timeouts -----

  class HashedWheelTimeout<T> {
    var state: State
    var remainingRounds: nat
    const task: T
    /** The number of this timeout among those its timer has given out. */
    ghost const id: nat
    /** The bucket it was put in. */
    ghost const slot: nat

    constructor (rounds: nat, task: T, ghost id: nat, ghost slot: nat)
      ensures Shows(Entry(id, task, Init, rounds)) && this.slot == slot
    {
      state, remainingRounds := Init, rounds;
      this.task := task;
      this.id := id;
      this.slot := slot;
    }

    ghost predicate Shows(e: Entry<T>)
      reads this
    {
      e.id == id && e.task == task && e.state == state && e.rounds == remainingRounds
    }

    method Cancel()
      modifies `state
      ensures state == Cancelled
    {
      state := Cancelled;
    }

    /** Runs the task, once: only the change from the initial state counts. */
    method Expire() returns (ran: seq<T>)
      modifies `state
      ensures old(state) == Init ==> state == Expired && ran == [task]
      ensures old(state) != Init ==> state == old(state) && ran == []
    {
      if state == Init {
        state := Expired;
        return [task];
      }
      return [];
    }

    method DecreaseRounds()
      requires remainingRounds > 0
      modifies `remainingRounds
      ensures remainingRounds == old(remainingRounds) - 1
    {
      remainingRounds := remainingRounds - 1;
    }
  }

  // ----- one bucket -----

  /** The list of bucket `slot` holds the entries `es`; `handles` is all the
      timeouts given out, by number. */
  ghost predicate ShowsList<T>(handles: seq<HashedWheelTimeout<T>>, slot: nat,
                               ts: seq<HashedWheelTimeout<T>>, es: seq<Entry<T>>)
    reads handles
  {
    |ts| == |es| && forall i :: 0 <= i < |ts| ==>
      es[i].id < |handles| && ts[i] == handles[es[i].id] && ts[i].slot == slot && handles[es[i].id].Shows(es[i])
  }

  /** A bucket lists its timeouts in the order they were added. */
  predicate Increasing<T>(es: seq<Entry<T>>) {
    forall i, j :: 0 <= i < j < |es| ==> es[i].id < es[j].id
  }

  /** What a visit makes of a timeout. */
  function Visited<T>(e: Entry<T>): Entry<T> {
    if e.rounds == 0 then (if e.state == Init then e.(state := Expired) else e)
    else if e.state == Cancelled then e
    else e.(rounds := e.rounds - 1)
  }

  predicate Stays<T>(e: Entry<T>) {
    e.rounds > 0 && e.state != Cancelled
  }

  /** The timeouts in the middle of a pass: the first `k` have been visited. */
  ghost predicate MidPass<T>(ts: seq<HashedWheelTimeout<T>>, es: seq<Entry<T>>, k: nat)
    reads ts
  {
    && |ts| == |es| && k <= |es|
    && (forall i :: 0 <= i < k ==> ts[i].Shows(Visited(es[i])))
    && (forall i :: k <= i < |es| ==> ts[i].Shows(es[i]))
    && Increasing(es)
  }

  /** The timeouts of a bucket that a pass keeps. */
  function Kept<T, X>(es: seq<Entry<T>>, ts: seq<X>): seq<X>
    requires |es| == |ts|
  {
    if es == [] then []
    else if Stays(es[0]) then [ts[0]] + Kept(es[1..], ts[1..])
    else Kept(es[1..], ts[1..])
  }

  lemma {:induction false} KeptShow<T>(handles: seq<HashedWheelTimeout<T>>, slot: nat,
                                       ts: seq<HashedWheelTimeout<T>>, es: seq<Entry<T>>)
    requires |ts| == |es|
    requires forall i :: 0 <= i < |ts| ==>
      es[i].id < |handles| && ts[i] == handles[es[i].id] && ts[i].slot == slot && ts[i].Shows(Visited(es[i]))
    ensures ShowsList(handles, slot, Kept(es, ts), Survivors(es))
  {
    if es != [] {
      KeptShow(handles, slot, ts[1..], es[1..]);
    }
  }

  function Tasks<T>(es: seq<Entry<T>>): (r: seq<T>)
    ensures |r| == |es| && forall i :: 0 <= i < |es| ==> r[i] == es[i].task
  {
    if es == [] then [] else [es[0].task] + Tasks(es[1..])
  }

  lemma {:induction false} KeptSnoc<T, X>(es: seq<Entry<T>>, ts: seq<X>, k: nat)
    requires k < |es| == |ts|
    ensures Kept(es[..k + 1], ts[..k + 1])
            == if Stays(es[k]) then Kept(es[..k], ts[..k]) + [ts[k]] else Kept(es[..k], ts[..k])
  {
    if k == 0 {
      assert es[..1] == [es[0]] && ts[..1] == [ts[0]];
    } else {
      KeptSnoc(es[1..], ts[1..], k - 1);
      assert es[..k + 1][1..] == es[1..][..k] && es[..k][1..] == es[1..][..k - 1];
      assert ts[..k + 1][1..] == ts[1..][..k] && ts[..k][1..] == ts[1..][..k - 1];
    }
  }

  lemma {:induction false} FiredSnoc<T>(es: seq<Entry<T>>, k: nat)
    requires k < |es|
    ensures Fired(es[..k + 1]) == Fired(es[..k]) + Fired([es[k]])
  {
    if k == 0 {
      assert es[..1] == [es[0]];
    } else {
      FiredSnoc(es[1..], k - 1);
      assert es[..k + 1][1..] == es[1..][..k] && es[..k][1..] == es[1..][..k - 1];
    }
  }

  lemma {:induction false} TasksConcat<T>(a: seq<Entry<T>>, b: seq<Entry<T>>)
    ensures Tasks(a + b) == Tasks(a) + Tasks(b)
  {
    if a == [] {
      assert a + b == b;
    } else {
      TasksConcat(a[1..], b);
      assert (a + b)[0] == a[0] && (a + b)[1..] == a[1..] + b;
      JoinAssociate([a[0].task], Tasks(a[1..]), Tasks(b));
    }
  }

  lemma {:induction false} RanSnoc<T>(es: seq<Entry<T>>, k: nat)
    requires k < |es|
    ensures Tasks(Fired(es[..k])) + Tasks(Fired([es[k]])) == Tasks(Fired(es[..k + 1]))
  {
    FiredSnoc(es, k);
    TasksConcat(Fired(es[..k]), Fired([es[k]]));
  }

  /** The slices with which a pass begins and ends. */
  lemma PassEnds<T, X>(es: seq<Entry<T>>, all: seq<X>)
    requires |es| == |all|
    ensures all[0..] == all && es[..0] == [] && all[..0] == []
    ensures es[..|es|] == es && all[..|all|] == all && all[|all|..] == []
  {}

  lemma CutHere<X>(s: seq<X>, all: seq<X>, k: nat)
    requires k < |all|
    ensures (s + all[k..])[|s|] == all[k]
    ensures (s + all[k..])[..|s|] + (s + all[k..])[|s| + 1..] == s + all[k + 1..]
    ensures s + all[k..] == (s + [all[k]]) + all[k + 1..]
  {}

  class HashedWheelBucket<T> {
    var timeoutList: seq<HashedWheelTimeout<T>>

    constructor ()
      ensures timeoutList == []
    {
      timeoutList := [];
    }

    method AddTimeout(timeout: HashedWheelTimeout<T>)
      modifies `timeoutList
      ensures timeoutList == old(timeoutList) + [timeout]
    {
      timeoutList := timeoutList + [timeout];
    }

    /** What a pass does to timeout number `k`: whether it is to be removed, and
        the task it has run, if any. */
    method Visit(timeout: HashedWheelTimeout<T>, ghost k: nat,
                 ghost all: seq<HashedWheelTimeout<T>>, ghost es: seq<Entry<T>>)
      returns (remove: bool, ran: seq<T>)
      requires MidPass(all, es, k) && k < |es| && timeout == all[k]
      modifies timeout`state, timeout`remainingRounds
      ensures MidPass(all, es, k + 1)
      ensures ran == Tasks(Fired([es[k]])) && remove == !Stays(es[k])
    {
      remove, ran := false, [];
      if timeout.remainingRounds == 0 {
        ran := timeout.Expire();
        remove := true;
      } else if timeout.state == Cancelled {
        remove := true;
      } else {
        timeout.DecreaseRounds();
      }
    }

    /** One step of a pass: visits timeout number `k`, now at `iter`, and erases
        it or goes on to the next. */
    method PassStep(iter: nat, ghost k: nat, ghost all: seq<HashedWheelTimeout<T>>, ghost es: seq<Entry<T>>)
      returns (iter': nat, ran: seq<T>)
      requires MidPass(all, es, k)
      requires k < |es| && timeoutList == Kept(es[..k], all[..k]) + all[k..] && iter == |Kept(es[..k], all[..k])|
      modifies this`timeoutList, {all[k]}`state, {all[k]}`remainingRounds
      ensures MidPass(all, es, k + 1)
      ensures timeoutList == Kept(es[..k + 1], all[..k + 1]) + all[k + 1..]
      ensures iter' == |Kept(es[..k + 1], all[..k + 1])|
      ensures ran == Tasks(Fired([es[k]]))
    {
      CutHere(Kept(es[..k], all[..k]), all, k);
      KeptSnoc(es, all, k);
      var timeout, list := timeoutList[iter], timeoutList;
      var remove, r := Visit(timeout, k, all, es);
      if remove {
        timeoutList := list[..iter] + list[iter + 1..];
        return iter, r;
      }
      return iter + 1, r;
    }

    /** The loop of a pass, erasing while iterating. */
    method RunPass(ghost es: seq<Entry<T>>) returns (ran: seq<T>)
      requires MidPass(timeoutList, es, 0)
      modifies this`timeoutList, timeoutList`state, timeoutList`remainingRounds
      ensures MidPass(old(timeoutList), es, |es|) && timeoutList == Kept(es, old(timeoutList))
      ensures ran == Tasks(Fired(es))
    {
      ran := [];
      var iter := 0;
      ghost var k, all := 0, timeoutList;
      PassEnds(es, all);
      while iter < |timeoutList|
        invariant MidPass(all, es, k) && iter == |Kept(es[..k], all[..k])|
        invariant timeoutList == Kept(es[..k], all[..k]) + all[k..]
        invariant ran == Tasks(Fired(es[..k]))
        decreases |all| - k
      {
        RanSnoc(es, k);
        var r;
        iter, r := PassStep(iter, k, all, es);
        ran := ran + r;
        k := k + 1;
      }
      assert k == |es|;
    }

    /** One pass over the bucket; `ran` is the tasks it runs. */
    method ExpireTimeouts(ghost handles: seq<HashedWheelTimeout<T>>, ghost slot: nat, ghost es: seq<Entry<T>>)
      returns (ran: seq<T>)
      requires ShowsList(handles, slot, timeoutList, es) && Increasing(es)
      modifies this`timeoutList, timeoutList`state, timeoutList`remainingRounds
      ensures ShowsList(handles, slot, timeoutList, Survivors(es))
      ensures ran == Tasks(Fired(es))
    {
      ghost var all := timeoutList;
      ran := RunPass(es);
      KeptShow(handles, slot, all, es);
    }
  }

  // ----- all buckets -----

  /** The buckets hold the lists `ws`. */
  ghost predicate AllShow<T>(handles: seq<HashedWheelTimeout<T>>, buckets: seq<HashedWheelBucket<T>>,
                             ws: seq<seq<Entry<T>>>)
    reads buckets, handles
  {
    && |ws| == |buckets|
    && (forall i :: 0 <= i < |handles| ==> handles[i].id == i)
    && (forall b :: 0 <= b < |ws| ==> ShowsList(handles, b, buckets[b].timeoutList, ws[b]) && Increasing(ws[b]))
    && (forall b, c :: 0 <= b < c < |buckets| ==> buckets[b] != buckets[c])
  }

  lemma {:induction false} SurvivorsIncrease<T>(es: seq<Entry<T>>, low: nat)
    requires Increasing(es) && forall i :: 0 <= i < |es| ==> es[i].id >= low
    ensures Increasing(Survivors(es))
    ensures forall i :: 0 <= i < |Survivors(es)| ==> Survivors(es)[i].id >= low
  {
    if es != [] {
      SurvivorsIncrease(es[1..], es[0].id + 1);
    }
  }

  method PutInBucket<T>(buckets: seq<HashedWheelBucket<T>>, index: nat, rounds: nat, task: T,
                        ghost handles: seq<HashedWheelTimeout<T>>, ghost ws: seq<seq<Entry<T>>>)
    returns (timeout: HashedWheelTimeout<T>)
    requires AllShow(handles, buckets, ws) && index < |buckets|
    modifies {buckets[index]}`timeoutList
    ensures fresh(timeout)
    ensures AllShow(handles + [timeout], buckets, ws[index := ws[index] + [Entry(|handles|, task, Init, rounds)]])
  {
    timeout := new HashedWheelTimeout<T>(rounds, task, |handles|, index);
    buckets[index].AddTimeout(timeout);
  }

  method PassBucket<T>(buckets: seq<HashedWheelBucket<T>>, b: nat,
                       ghost handles: seq<HashedWheelTimeout<T>>, ghost ws: seq<seq<Entry<T>>>)
    returns (ran: seq<T>)
    requires AllShow(handles, buckets, ws) && b < |buckets|
    modifies {buckets[b]}`timeoutList, handles`state, handles`remainingRounds
    ensures AllShow(handles, buckets, ws[b := Survivors(ws[b])])
    ensures ran == Tasks(Fired(ws[b]))
  {
    SurvivorsIncrease(ws[b], 0);
    ran := buckets[b].ExpireTimeouts(handles, b, ws[b]);
  }

  // ----- the timer -----

  class HashedWheelTimer<T> {
    var ticked: nat
    const normalizeShift: nat
    const ticksPerWheel: nat
    const msPerTick: nat
    const mask: nat
    const buckets: seq<HashedWheelBucket<T>>

    /** All the timeouts given out, by number; the wheel the buckets hold; and
        the bag of deadlines it stands for. */
    ghost var handles: seq<HashedWheelTimeout<T>>
    ghost var wheel: Wheel<T>
    ghost var bag: Bag<T>

    ghost predicate Wired() {
      && normalizeShift <= 31 && ticksPerWheel == |buckets| == Pow2(normalizeShift)
      && mask == ticksPerWheel - 1
      && 0 < msPerTick < UINT32
    }

    ghost predicate Valid()
      reads this, buckets, handles
    {
      && Wired()
      && ticked == wheel.ticked % UINT64
      && AllShow(handles, buckets, wheel.buckets)
      && Holds(wheel, bag)
    }

    constructor (msPerTick: nat, ticksPerWheel: nat)
      requires 0 < msPerTick < UINT32 && ticksPerWheel <= 0x8000_0000
      ensures Valid() && fresh(buckets) && handles == []
      ensures this.msPerTick == msPerTick
      ensures bag == Bag(0, []) && wheel == EmptyWheel(|buckets|)
      ensures ticksPerWheel <= |buckets| && forall s: nat :: ticksPerWheel <= Pow2(s) ==> |buckets| <= Pow2(s)
    {
      var shift := CalculateNormalizeShift(ticksPerWheel);
      var bs: seq<HashedWheelBucket<T>> := [];
      for i := 0 to Pow2(shift)
        invariant |bs| == i && fresh(bs)
        invariant forall j :: 0 <= j < i ==> bs[j].timeoutList == []
        invariant forall j, k :: 0 <= j < k < i ==> bs[j] != bs[k]
      {
        var b := new HashedWheelBucket<T>();
        bs := bs + [b];
      }
      ticked := 0;
      normalizeShift := shift;
      this.ticksPerWheel := Pow2(shift);
      this.msPerTick := msPerTick;
      mask := Pow2(shift) - 1;
      buckets := bs;
      handles := [];
      wheel := Wheel(0, seq(|bs|, _ => []));
      bag := Bag(0, []);
      new;
      EmptyHolds(wheel);
      assert wheel.buckets == EmptyWheel<T>(|buckets|).buckets;
      forall s: nat | ticksPerWheel <= Pow2(s)
        ensures |buckets| <= Pow2(s)
      {
        Pow2Monotone(shift, s);
      }
    }

    /** Keeps the ghost state up to date. */
    ghost method Record(hs: seq<HashedWheelTimeout<T>>, w: Wheel<T>, b: Bag<T>)
      requires AllShow(hs, buckets, w.buckets)
      modifies `handles, `wheel, `bag
      ensures AllShow(hs, buckets, w.buckets)
      ensures handles == hs && wheel == w && bag == b
    {
      handles, wheel, bag := hs, w, b;
    }

    method NextTick(ghost w: Wheel<T>, ghost b: Bag<T>)
      requires AllShow(handles, buckets, w.buckets)
      requires ticked == wheel.ticked % UINT64 && w.ticked == wheel.ticked + 1
      modifies `ticked, `wheel, `bag
      ensures AllShow(handles, buckets, w.buckets)
      ensures ticked == w.ticked % UINT64 && wheel == w && bag == b
    {
      AddThenMod(1, wheel.ticked, UINT64);
      wheel, bag := w, b;
      ticked := (ticked + 1) % UINT64;
    }

    /** The rounds and the bucket of a timeout `ticks` ticks from now. */
    method Place(ticks: nat) returns (rounds: nat, index: nat)
      requires Wired() && ticked == wheel.ticked % UINT64
      ensures rounds == ticks / |buckets|
      ensures index == (ticks + wheel.ticked) % |buckets|
    {
      PlacedRight(ticks, wheel.ticked, normalizeShift);
      var offTick := BitAnd(ticked, mask);
      rounds := Quotient(ticks, Pow2(normalizeShift));
      index := BitAnd((ticks + offTick) % UINT32, mask);
    }

    /** The bucket whose turn it is. */
    method CurrentBucket() returns (b: nat)
      requires Wired() && ticked == wheel.ticked % UINT64
      ensures b == wheel.ticked % |buckets|
    {
      b := BitAnd(ticked, mask);
      MaskIsMod(ticked, normalizeShift);
      IndexSurvivesWrap(0, wheel.ticked, normalizeShift);
    }

    /** Arms a task: it is due as many ticks from now as the conversion says. */
    method AddTimeout(task: T, expireMs: nat) returns (timeout: HashedWheelTimeout<T>)
      requires Valid() && expireMs < UINT64
      modifies `handles, `wheel, `bag, buckets`timeoutList
      ensures Valid()
      ensures fresh(timeout) && handles == old(handles) + [timeout]
      ensures bag == BagAdd(old(bag), |old(handles)|, task, ExpireTicks(expireMs, msPerTick))
      ensures wheel == WheelAdd(old(wheel), |old(handles)|, task, ExpireTicks(expireMs, msPerTick))
    {
      var ticks := ExpireTicks(expireMs, msPerTick);
      var rounds, index := Place(ticks);
      PlacedIsAdded(wheel, |handles|, task, ticks, rounds, index);
      AddHolds(wheel, bag, |handles|, task, ticks);
      timeout := PutInBucket(buckets, index, rounds, task, handles, wheel.buckets);
      Record(handles + [timeout], WheelAdd(wheel, |handles|, task, ticks), BagAdd(bag, |handles|, task, ticks));
    }

    /** Cancels a timeout of this timer through its handle. */
    method CancelTimeout(timeout: HashedWheelTimeout<T>)
      requires Valid() && timeout.id < |handles| && handles[timeout.id] == timeout
      modifies `handles, `wheel, `bag, timeout`state
      ensures Valid() && handles == old(handles)
      ensures bag == BagCancel(old(bag), timeout.id) && wheel == WheelCancel(old(wheel), timeout.id)
    {
      CancelHolds(wheel, bag, timeout.id);
      timeout.Cancel();
      Record(handles, WheelCancel(wheel, timeout.id), BagCancel(bag, timeout.id));
    }

    /** One tick: runs what is due now, in the order it was added. */
    method Tick() returns (ran: seq<T>)
      requires Valid()
      modifies `ticked, `wheel, `bag, buckets`timeoutList, handles`state, handles`remainingRounds
      ensures Valid() && handles == old(handles)
      ensures (bag, ran) == (BagTick(old(bag)).0, ArmedTasks(BagTick(old(bag)).1))
      ensures wheel == WheelTick(old(wheel)).0
    {
      var b := CurrentBucket();
      TickHolds(wheel, bag);
      StripTasks(Fired(wheel.buckets[b]), wheel.ticked);
      ran := PassBucket(buckets, b, handles, wheel.buckets);
      NextTick(WheelTick(wheel).0, BagTick(bag).0);
    }
  }

  function ArmedTasks<T>(s: seq<Armed<T>>): (r: seq<T>)
    ensures |r| == |s| && forall i :: 0 <= i < |s| ==> r[i] == s[i].task
  {
    if s == [] then [] else [s[0].task] + ArmedTasks(s[1..])
  }

  lemma {:induction false} StripTasks<T>(es: seq<Entry<T>>, now: nat)
    ensures ArmedTasks(Strip(es, now)) == Tasks(es)
  {
    if es != [] {
      StripTasks(es[1..], now);
    }
  }
}
