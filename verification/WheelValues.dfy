/**
 The hashed wheel timer as a value, and what it is a fast form of: a bag of
 absolute deadlines. A time is the number of ticks processed so far.
 */
module WheelValues {
  import opened Arithmetic

  datatype State = Init | Cancelled | Expired

  /** A timeout in a bucket: who it is, what it runs, and the rounds it has left. */
  datatype Entry<T> = Entry(id: nat, task: T, state: State, rounds: nat)

  datatype Wheel<T> = Wheel(ticked: nat, buckets: seq<seq<Entry<T>>>)

  /** A timeout that is armed, with the tick in which it is due. */
  datatype Armed<T> = Armed(id: nat, task: T, deadline: nat)

  /** The armed timeouts in the order they were added. */
  datatype Bag<T> = Bag(now: nat, armed: seq<Armed<T>>)

  // ----- the bag -----

  function Due<T>(s: seq<Armed<T>>, now: nat): seq<Armed<T>> {
    if s == [] then []
    else if s[0].deadline == now then [s[0]] + Due(s[1..], now)
    else Due(s[1..], now)
  }

  function NotDue<T>(s: seq<Armed<T>>, now: nat): seq<Armed<T>> {
    if s == [] then []
    else if s[0].deadline == now then NotDue(s[1..], now)
    else [s[0]] + NotDue(s[1..], now)
  }

  function Without<T>(s: seq<Armed<T>>, id: nat): seq<Armed<T>> {
    if s == [] then []
    else if s[0].id == id then Without(s[1..], id)
    else [s[0]] + Without(s[1..], id)
  }

  function BagAdd<T>(b: Bag<T>, id: nat, task: T, ticks: nat): Bag<T> {
    b.(armed := b.armed + [Armed(id, task, b.now + ticks)])
  }

  function BagCancel<T>(b: Bag<T>, id: nat): Bag<T> {
    b.(armed := Without(b.armed, id))
  }

  /** A tick fires what is due now, in the order it was added. */
  function BagTick<T>(b: Bag<T>): (Bag<T>, seq<Armed<T>>) {
    (Bag(b.now + 1, NotDue(b.armed, b.now)), Due(b.armed, b.now))
  }

  // ----- the wheel -----

  function WheelAdd<T>(w: Wheel<T>, id: nat, task: T, ticks: nat): Wheel<T>
    requires |w.buckets| > 0
  {
    var index := (ticks + w.ticked) % |w.buckets|;
    var entry := Entry(id, task, Init, ticks / |w.buckets|);
    w.(buckets := w.buckets[index := w.buckets[index] + [entry]])
  }

  function CancelIn<T>(es: seq<Entry<T>>, id: nat): (r: seq<Entry<T>>)
    ensures |r| == |es|
    ensures forall i :: 0 <= i < |es| ==> r[i] == if es[i].id == id then es[i].(state := Cancelled) else es[i]
  {
    seq(|es|, i requires 0 <= i < |es| => if es[i].id == id then es[i].(state := Cancelled) else es[i])
  }

  function WheelCancel<T>(w: Wheel<T>, id: nat): (w': Wheel<T>)
    ensures w'.ticked == w.ticked && |w'.buckets| == |w.buckets|
    ensures forall b: nat :: b < |w.buckets| ==> w'.buckets[b] == CancelIn(w.buckets[b], id)
  {
    w.(buckets := seq(|w.buckets|, b requires 0 <= b < |w.buckets| => CancelIn(w.buckets[b], id)))
  }

  /** What a pass over a bucket leaves in it. */
  function Survivors<T>(es: seq<Entry<T>>): seq<Entry<T>> {
    if es == [] then []
    else if es[0].rounds == 0 || es[0].state == Cancelled then Survivors(es[1..])
    else [es[0].(rounds := es[0].rounds - 1)] + Survivors(es[1..])
  }

  /** The entries whose task a pass over a bucket runs, in list order. */
  function Fired<T>(es: seq<Entry<T>>): seq<Entry<T>> {
    if es == [] then []
    else if es[0].rounds == 0 && es[0].state == Init then [es[0]] + Fired(es[1..])
    else Fired(es[1..])
  }

  function WheelTick<T>(w: Wheel<T>): (Wheel<T>, seq<Entry<T>>)
    requires |w.buckets| > 0
  {
    var b := w.ticked % |w.buckets|;
    (Wheel(w.ticked + 1, w.buckets[b := Survivors(w.buckets[b])]), Fired(w.buckets[b]))
  }

  // ----- what the wheel stands for -----

  /** How many ticks after `now` bucket `b` of `n` buckets is next visited. */
  function Ahead(now: nat, n: nat, b: nat): (d: nat)
    requires n > 0
    ensures d < n
  {
    (b - now) % n
  }

  function Deadline<T>(now: nat, n: nat, b: nat, e: Entry<T>): nat
    requires n > 0
  {
    now + Ahead(now, n, b) + e.rounds * n
  }

  /** The armed entries of bucket `b`, with the deadlines they stand for. */
  function ArmedIn<T>(now: nat, n: nat, b: nat, es: seq<Entry<T>>): seq<Armed<T>>
    requires n > 0
  {
    if es == [] then []
    else if es[0].state == Init then
      [Armed(es[0].id, es[0].task, Deadline(now, n, b, es[0]))] + ArmedIn(now, n, b, es[1..])
    else ArmedIn(now, n, b, es[1..])
  }

  /** The part of the bag whose deadlines fall into bucket `b`. */
  function Slice<T>(s: seq<Armed<T>>, n: nat, b: nat): seq<Armed<T>>
    requires n > 0
  {
    if s == [] then []
    else if s[0].deadline % n == b then [s[0]] + Slice(s[1..], n, b)
    else Slice(s[1..], n, b)
  }

  predicate NoneOverdue<T>(s: seq<Armed<T>>, now: nat) {
    forall i :: 0 <= i < |s| ==> s[i].deadline >= now
  }

  /** The wheel holds the bag, bucket by bucket, in the same order. */
  ghost predicate Holds<T>(w: Wheel<T>, bag: Bag<T>) {
    && w.ticked == bag.now && |w.buckets| > 0
    && NoneOverdue(bag.armed, bag.now)
    && forall b: nat :: b < |w.buckets| ==> BucketHolds(w, bag, b)
  }

  ghost predicate BucketHolds<T>(w: Wheel<T>, bag: Bag<T>, b: nat)
    requires b < |w.buckets|
  {
    ArmedIn(w.ticked, |w.buckets|, b, w.buckets[b]) == Slice(bag.armed, |w.buckets|, b)
  }

  // ----- modular arithmetic of the wheel -----

  lemma AheadOf(now: nat, n: nat, k: nat)
    requires n > 0
    ensures Ahead(now, n, (now + k) % n) == k % n
  {
    var x := now + k;
    assert x % n - now == k + (-(x / n)) * n;
    ModMultiple(k, -(x / n), n);
  }

  lemma DivMod(k: nat, n: nat)
    requires n > 0
    ensures k % n + (k / n) * n == k
  {}

  lemma AheadNow(now: nat, n: nat)
    requires n > 0
    ensures Ahead(now, n, now % n) == 0
  {
    AheadOf(now, n, 0);
  }

  /** One tick later every bucket is one tick nearer, but the one just visited
      is a whole turn away. */
  lemma AheadLater(now: nat, n: nat, b: nat)
    requires n > 0 && b < n
    ensures b == now % n ==> Ahead(now + 1, n, b) == n - 1
    ensures b != now % n ==> Ahead(now, n, b) > 0 && Ahead(now + 1, n, b) == Ahead(now, n, b) - 1
  {
    var q, d := (b - now) / n, Ahead(now, n, b);
    assert b - now == q * n + d;
    if d == 0 {
      assert now == (-q) * n + b;
      DivModUnique(now, -q, b, n);
      assert b - (now + 1) == (q - 1) * n + (n - 1);
      DivModUnique(b - (now + 1), q - 1, n - 1, n);
    } else {
      DivModUnique(b - (now + 1), q, d - 1, n);
      AheadNow(now, n);
    }
  }

  lemma DeadlineBucket<T>(now: nat, n: nat, b: nat, e: Entry<T>)
    requires n > 0 && b < n
    ensures Deadline(now, n, b, e) % n == b
  {
    var d := Ahead(now, n, b);
    assert b - now == ((b - now) / n) * n + d;
    assert now + d + e.rounds * n == b + (e.rounds - (b - now) / n) * n;
    ModMultiple(b, e.rounds - (b - now) / n, n);
    DivModUnique(b, 0, b, n);
  }
}
