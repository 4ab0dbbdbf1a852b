/**
 The hand-off of runnables to a looper thread: MultiplexLooper.hpp and the event
 step of MultiplexLooper.cpp, as interleaved atomic steps. Posters push under
 the mutex and then write to an eventfd that the looper watches edge-triggered.
 */
module RunnableHandOff {
  import opened Sequences

  /** Where the looper thread is. */
  datatype LoopPc =
    | Waiting    // in epoll_wait
    | Reported   // epoll_wait has returned the channel; its eventfd is not read yet
    | HaveRead   // the eventfd is read, the vector not swapped yet
    | Running    // the vector is swapped out; the batch is being run
    | Exited     // the loop has ended

  /**
   `edge` says that the eventfd was written since epoll last looked at it. Ghost
   history: everything pushed so far and everything of it run so far, in order,
   and what was posted on the looper's own thread and so run at once.
   */
  datatype State<R> = State(
    runnables: seq<R>,
    counter: nat,
    edge: bool,
    pushed: set<nat>,   // posters between their push and their signal
    looping: bool,
    loop: LoopPc,
    batch: seq<R>,
    readFailed: bool,   // the assertion on the read of the eventfd has failed
    posted: seq<R>,
    executed: seq<R>,
    inline: seq<R>)

  datatype Step<R> =
    | Push(poster: nat, runnable: R)
    | Signal(poster: nat)
    | Report
    | Drop
    | Read
    | Swap
    | Execute
    | Return
    | Inline(runnable: R)
    | Stop
    | Exit

  function Start<R>(): State<R> {
    State([], 0, false, {}, true, Waiting, [], false, [], [], [])
  }

  predicate Enabled<R>(s: State<R>, step: Step<R>) {
    match step
    case Push(p, _) => p !in s.pushed
    case Signal(p) => p in s.pushed
    case Report => s.loop == Waiting && s.edge && s.counter > 0
    case Drop => s.loop == Waiting && s.edge && s.counter == 0
    case Read => s.loop == Reported && !s.readFailed
    case Swap => s.loop == HaveRead
    case Execute => s.loop == Running && s.batch != []
    case Return => s.loop == Running && s.batch == []
    case Inline(_) => s.loop != Exited
    case Stop => true
    case Exit => s.loop == Waiting && !s.looping
  }

  function Next<R>(s: State<R>, step: Step<R>): State<R>
    requires Enabled(s, step)
  {
    match step
    // poster: the locked push, then the write of 1 to the eventfd
    case Push(p, r) => s.(runnables := s.runnables + [r], pushed := s.pushed + {p}, posted := s.posted + [r])
    case Signal(p) => s.(counter := s.counter + 1, edge := true, pushed := s.pushed - {p})
    // epoll_wait: reports an edge if the eventfd is readable, else forgets it
    case Report => s.(edge := false, loop := Reported)
    case Drop => s.(edge := false)
    // handleRead: a non-blocking read, asserted to succeed, takes the whole counter
    case Read => if s.counter == 0 then s.(readFailed := true) else s.(counter := 0, loop := HaveRead)
    // executeRunnables: the locked swap with an empty vector, then the batch
    case Swap => s.(batch := s.runnables, runnables := s.batch, loop := Running)
    case Execute => s.(executed := s.executed + [s.batch[0]], batch := s.batch[1..])
    case Return => s.(loop := if s.looping then Waiting else Exited)
    // postRunnable from a callback on the looper's thread
    case Inline(r) => s.(inline := s.inline + [r])
    // stopLoop, and the loop's test after an epoll_wait woken by it
    case Stop => s.(looping := false)
    case Exit => s.(loop := Exited)
  }

  /** A run: steps that are not enabled where they come are passed over. */
  function Run<R>(s: State<R>, steps: seq<Step<R>>): State<R>
    decreases steps
  {
    if steps == [] then s
    else Run(if Enabled(s, steps[0]) then Next(s, steps[0]) else s, steps[1..])
  }

  ghost predicate Inv<R>(s: State<R>) {
    && s.executed + s.batch + s.runnables == s.posted
    && (s.loop != Running ==> s.batch == [])
    && (s.loop == Reported ==> s.counter > 0)
    && (s.counter > 0 ==> s.edge || s.loop == Reported)
    && (s.runnables != [] ==> s.pushed != {} || s.counter > 0 || s.loop == HaveRead)
    && !s.readFailed
  }

  lemma StepKeepsInv<R>(s: State<R>, step: Step<R>)
    requires Inv(s) && Enabled(s, step)
    ensures Inv(Next(s, step))
  {
    match step
    case Push(p, r) =>
      assert s.executed + s.batch + (s.runnables + [r]) == (s.executed + s.batch + s.runnables) + [r];
      assert p in Next(s, step).pushed;
    case Signal(p) =>
    case Report =>
    case Drop =>
    case Read =>
    case Swap =>
      assert s.executed + s.runnables + [] == s.executed + [] + s.runnables;
    case Execute =>
      assert (s.executed + [s.batch[0]]) + s.batch[1..] == s.executed + s.batch;
    case Return =>
    case Inline(r) =>
    case Stop =>
    case Exit =>
  }

  lemma {:induction false} RunKeepsInv<R>(s: State<R>, steps: seq<Step<R>>)
    requires Inv(s)
    ensures Inv(Run(s, steps))
    decreases steps
  {
    if steps != [] {
      if Enabled(s, steps[0]) { StepKeepsInv(s, steps[0]); }
      RunKeepsInv(if Enabled(s, steps[0]) then Next(s, steps[0]) else s, steps[1..]);
    }
  }

  /**
   Under every interleaving of any number of posters with the looper: runnables
   run once each, in the order they were pushed; the asserted read of the
   eventfd never comes up empty; and no wake-up is lost.
   */
  lemma {:induction false} HandOffIsSafe<R>(steps: seq<Step<R>>)
    ensures var s := Run(Start<R>(), steps);
      && s.executed <= s.posted
      && s.executed + s.batch + s.runnables == s.posted
      && !s.readFailed
      && (s.runnables != [] ==>
            || s.pushed != {}                       // a poster has yet to signal
            || (s.counter > 0 && s.edge)            // epoll will report the eventfd
            || s.loop == Reported || s.loop == HaveRead)  // the looper is on its way to swap
  {
    RunKeepsInv(Start<R>(), steps);
    var s := Run(Start<R>(), steps);
    assert s.executed + s.batch + s.runnables == s.executed + (s.batch + s.runnables);
  }

  // ----- nothing is left behind -----

  /** The step the looper takes next on its own, if there is one. */
  function LoopStep<R>(s: State<R>): Step<R> {
    match s.loop
    case Waiting => if s.counter > 0 then Report else Drop
    case Reported => Read
    case HaveRead => Swap
    case Running => if s.batch != [] then Execute else Return
    case Exited => Stop
  }

  /** The looper cannot move: it waits, and epoll has nothing to report. */
  predicate Idle<R>(s: State<R>) {
    s.loop == Waiting && !s.edge
  }

  /** The looper alone, until it waits with nothing to report. */
  ghost function Drain<R>(s: State<R>): State<R>
    requires Inv(s) && s.looping && s.loop != Exited
    decreases if s.edge then 1 else 0,
              match s.loop case Waiting => 0 case Running => 1 case HaveRead => 2 case Reported => 3 case Exited => 4,
              |s.batch|
  {
    if Idle(s) then s else
      StepKeepsInv(s, LoopStep(s));
      Drain(Next(s, LoopStep(s)))
  }

  lemma {:induction false} DrainRunsAll<R>(s: State<R>)
    requires Inv(s) && s.looping && s.loop != Exited
    ensures var d := Drain(s); Inv(d) && Idle(d) && d.posted == s.posted && d.pushed == s.pushed
    decreases if s.edge then 1 else 0,
              match s.loop case Waiting => 0 case Running => 1 case HaveRead => 2 case Reported => 3 case Exited => 4,
              |s.batch|
  {
    if !Idle(s) {
      StepKeepsInv(s, LoopStep(s));
      DrainRunsAll(Next(s, LoopStep(s)));
    }
  }

  /** Whenever every poster has signalled and the loop has not been stopped, the
      looper, left to itself, runs everything that was pushed and then waits. */
  lemma {:induction false} EverythingRuns<R>(steps: seq<Step<R>>)
    requires Run(Start<R>(), steps).pushed == {}
    requires Run(Start<R>(), steps).looping && Run(Start<R>(), steps).loop != Exited
    ensures Inv(Run(Start<R>(), steps))
    ensures Idle(Drain(Run(Start<R>(), steps)))
    ensures Drain(Run(Start<R>(), steps)).executed == Run(Start<R>(), steps).posted
  {
    RunKeepsInv(Start<R>(), steps);
    var s := Run(Start<R>(), steps);
    DrainRunsAll(s);
    var d := Drain(s);
    assert d.executed + d.batch + d.runnables == d.executed;
  }

  /** And a waiting looper with nothing to report has run everything pushed,
      exactly when no pushed runnable still waits for its poster's signal. */
  lemma {:induction false} IdleMeansDone<R>(steps: seq<Step<R>>)
    requires Idle(Run(Start<R>(), steps))
    ensures var s := Run(Start<R>(), steps);
      (s.executed == s.posted <==> s.runnables == []) && (s.runnables != [] ==> s.pushed != {})
  {
    RunKeepsInv(Start<R>(), steps);
    var s := Run(Start<R>(), steps);
    assert s.executed + s.batch + s.runnables == s.executed + s.runnables;
    assert |s.posted| == |s.executed| + |s.runnables|;
  }

  // ----- everything that is posted is accounted for -----

  /** The runnables that a run pushes, in order: those of posters that are not
      already between a push and a signal. */
  function PushedBy<R>(s: State<R>, steps: seq<Step<R>>): seq<R>
    decreases steps
  {
    if steps == [] then []
    else if steps[0].Push? && steps[0].poster !in s.pushed
      then [steps[0].runnable] + PushedBy(Next(s, steps[0]), steps[1..])
    else PushedBy(if Enabled(s, steps[0]) then Next(s, steps[0]) else s, steps[1..])
  }

  /** The runnables that a run posts on the looper's own thread, in order: all
      until the loop has ended. */
  function InlinedBy<R>(s: State<R>, steps: seq<Step<R>>): seq<R>
    decreases steps
  {
    if steps == [] then []
    else if steps[0].Inline? && s.loop != Exited
      then [steps[0].runnable] + InlinedBy(Next(s, steps[0]), steps[1..])
    else InlinedBy(if Enabled(s, steps[0]) then Next(s, steps[0]) else s, steps[1..])
  }

  /** Every runnable pushed is in the history once, in order, and every one posted
      on the looper's own thread has been run once, in order. */
  lemma {:induction false} HistoryIsWhole<R>(s: State<R>, steps: seq<Step<R>>)
    ensures Run(s, steps).posted == s.posted + PushedBy(s, steps)
    ensures Run(s, steps).inline == s.inline + InlinedBy(s, steps)
    decreases steps
  {
    if steps == [] {
      assert s.posted + [] == s.posted && s.inline + [] == s.inline;
    } else {
      var t := if Enabled(s, steps[0]) then Next(s, steps[0]) else s;
      HistoryIsWhole(t, steps[1..]);
      if steps[0].Push? && Enabled(s, steps[0]) {
        JoinAssociate(s.posted, [steps[0].runnable], PushedBy(t, steps[1..]));
      } else if steps[0].Inline? && Enabled(s, steps[0]) {
        JoinAssociate(s.inline, [steps[0].runnable], InlinedBy(t, steps[1..]));
      }
    }
  }

  // ----- stopping -----

  /** Once stopped, the looper ends at most one batch more and is not started
      again; when it has no batch to end it can end the loop at once. */
  lemma {:induction false} StopEndsLoop<R>(s: State<R>, steps: seq<Step<R>>)
    ensures var t := Next(s, Stop);
      && !t.looping && !Run(t, steps).looping
      && Returns(t, steps) <= (if s.loop == Exited then 0 else 1)
      && (s.loop == Waiting ==> Run(t, [Exit]).loop == Exited)
  {
    StoppedReturns(Next(s, Stop), steps);
    if s.loop == Waiting {
      RunOne(Next(s, Stop), Exit);
    }
  }

  lemma {:induction false} StoppedReturns<R>(s: State<R>, steps: seq<Step<R>>)
    requires !s.looping
    ensures !Run(s, steps).looping && Returns(s, steps) <= (if s.loop == Exited then 0 else 1)
    decreases steps
  {
    if steps != [] {
      StoppedReturns(if Enabled(s, steps[0]) then Next(s, steps[0]) else s, steps[1..]);
    }
  }

  // ----- no signalled runnable waits longer than a cycle -----

  /** The first `n` runnables pushed are run, in the batch, or on the looper's way. */
  predicate Coming<R>(s: State<R>, n: nat) {
    n <= |s.posted| && (n <= |s.executed| + |s.batch| || s.counter > 0 || s.loop == HaveRead)
  }

  /** How many batches the looper has yet to end before the first `n` have run. */
  function Need<R>(s: State<R>, n: nat): nat {
    if n <= |s.executed| then 0
    else if n <= |s.executed| + |s.batch| then 1
    else if s.loop == Running then 2
    else 1
  }

  /** How many batches end in a run. */
  function Returns<R>(s: State<R>, steps: seq<Step<R>>): nat
    decreases steps
  {
    if steps == [] then 0
    else if !Enabled(s, steps[0]) then Returns(s, steps[1..])
    else (if steps[0] == Return then 1 else 0) + Returns(Next(s, steps[0]), steps[1..])
  }

  lemma NeedStep<R>(s: State<R>, step: Step<R>, n: nat)
    requires Inv(s) && Enabled(s, step) && Coming(s, n)
    ensures Coming(Next(s, step), n) && s.posted <= Next(s, step).posted
    ensures Need(Next(s, step), n) <= Need(s, n)
    ensures step == Return && Need(s, n) > 0 ==> Need(Next(s, step), n) < Need(s, n)
  {
    assert |s.posted| == |s.executed| + |s.batch| + |s.runnables|;
  }

  lemma {:induction false} NeedRun<R>(s: State<R>, steps: seq<Step<R>>, n: nat)
    requires Inv(s) && Coming(s, n)
    ensures Returns(s, steps) >= Need(s, n) ==> n <= |Run(s, steps).executed|
    ensures s.posted <= Run(s, steps).posted
    decreases steps
  {
    if steps != [] {
      if Enabled(s, steps[0]) {
        NeedStep(s, steps[0], n);
        StepKeepsInv(s, steps[0]);
        NeedRun(Next(s, steps[0]), steps[1..], n);
      } else {
        NeedRun(s, steps[1..], n);
      }
    }
  }

  /**
   Whatever other posters go on doing: when a poster has signalled, its runnable,
   and all pushed before, have run by the end of the looper's next batch; of the
   next but one, if the signal came while a batch was running.
   */
  lemma {:induction false} SignalledRuns<R>(before: seq<Step<R>>, poster: nat, after: seq<Step<R>>)
    requires poster in Run(Start<R>(), before).pushed
    ensures var s := Next(Run(Start<R>(), before), Signal(poster));
      Returns(s, after) >= (if s.loop == Running then 2 else 1) ==> s.posted <= Run(s, after).executed
  {
    var s0 := Run(Start<R>(), before);
    RunKeepsInv(Start<R>(), before);
    StepKeepsInv(s0, Signal(poster));
    var s := Next(s0, Signal(poster));
    NeedRun(s, after, |s.posted|);
    RunKeepsInv(s, after);
    var d := Run(s, after);
    if |s.posted| <= |d.executed| {
      PrefixOfBoth(s.posted, d.executed, d.batch + d.runnables, d.posted);
      JoinAssociate(d.executed, d.batch, d.runnables);
    }
  }

  lemma PrefixOfBoth<R>(a: seq<R>, b: seq<R>, c: seq<R>, all: seq<R>)
    requires a <= all && |a| <= |b|
    ensures all == b + c ==> a <= b
  {
    if all == b + c {
      assert forall i :: 0 <= i < |a| ==> a[i] == all[i] == b[i];
    }
  }

  // ----- the calls, in place -----

  lemma {:induction false} RunJoin<R>(s: State<R>, a: seq<Step<R>>, b: seq<Step<R>>)
    ensures Run(s, a + b) == Run(Run(s, a), b)
    decreases a
  {
    if a == [] {
      assert a + b == b;
    } else {
      assert (a + b)[1..] == a[1..] + b;
      RunJoin(if Enabled(s, a[0]) then Next(s, a[0]) else s, a[1..], b);
    }
  }

  lemma RunOne<R>(s: State<R>, step: Step<R>)
    requires Enabled(s, step)
    ensures Run(s, [step]) == Next(s, step)
  {
    assert [step][1..] == [];
  }

  function Executes<R>(n: nat): (steps: seq<Step<R>>)
    ensures |steps| == n
  {
    seq(n, _ => Execute)
  }

  lemma OneMoreExecute<R>(s: State<R>, n: nat)
    requires Enabled(Run(s, Executes(n)), Execute)
    ensures Run(s, Executes(n + 1)) == Next(Run(s, Executes(n)), Execute)
  {
    assert Executes<R>(n + 1) == Executes(n) + [Execute];
    RunJoin(s, Executes(n), [Execute]);
    RunOne(Run(s, Executes(n)), Execute);
  }

  /** The swap, the whole batch and the way back, when the batch has `n` runnables. */
  lemma BatchRun<R>(s: State<R>, n: nat)
    requires Enabled(s, Swap) && Enabled(Run(Next(s, Swap), Executes(n)), Return)
    ensures Run(s, [Swap] + Executes(n) + [Return]) == Next(Run(Next(s, Swap), Executes(n)), Return)
  {
    RunJoin(s, [Swap] + Executes(n), [Return]);
    RunJoin(s, [Swap], Executes(n));
    RunOne(s, Swap);
    RunOne(Run(Next(s, Swap), Executes(n)), Return);
  }

  /** The looper, with its eventfd and the ghost part of its state. Each call is a
      run of the steps above, here with nothing of others in between. */
  class MultiplexLooper<R> {
    var runnables: seq<R>
    var counter: nat
    var edge: bool
    var looping: bool
    ghost var pushed: set<nat>
    ghost var loop: LoopPc
    ghost var batch: seq<R>
    ghost var posted: seq<R>
    ghost var executed: seq<R>
    ghost var inline: seq<R>

    ghost function View(): State<R>
      reads this
    {
      State(runnables, counter, edge, pushed, looping, loop, batch, false, posted, executed, inline)
    }

    constructor ()
      ensures View() == Start()
    {
      runnables, counter, edge, looping := [], 0, false, true;
      pushed, loop, batch, posted, executed, inline := {}, Waiting, [], [], [], [];
    }

    /** `wakeup`: the signal of a poster. */
    method Wakeup(ghost poster: nat)
      requires poster in pushed
      modifies `counter, `edge, `pushed
      ensures View() == Next(old(View()), Signal(poster))
    {
      counter, edge := counter + 1, true;
      pushed := pushed - {poster};
    }

    /** Queued and signalled, whichever thread calls. */
    method PostRunnablePopStack(ghost poster: nat, runnable: R)
      requires Inv(View()) && poster !in pushed
      modifies `runnables, `counter, `edge, `pushed, `posted
      ensures View() == Run(old(View()), [Push(poster, runnable), Signal(poster)])
      ensures Inv(View()) && Coming(View(), |posted|) && posted == old(posted) + [runnable]
    {
      ghost var s := View();
      StepKeepsInv(s, Push(poster, runnable));
      runnables := runnables + [runnable];
      posted, pushed := posted + [runnable], pushed + {poster};
      StepKeepsInv(View(), Signal(poster));
      Wakeup(poster);
      RunOne(Next(s, Push(poster, runnable)), Signal(poster));
      assert [Push(poster, runnable), Signal(poster)][1..] == [Signal(poster)];
    }

    /** `postRunnable`: on the looper's own thread it runs at once, otherwise it
        is queued and the looper signalled. */
    method PostRunnable(onLoopThread: bool, ghost poster: nat, runnable: R)
      requires Inv(View()) && poster !in pushed && (onLoopThread ==> loop != Exited)
      modifies this
      ensures View() == Run(old(View()),
                            if onLoopThread then [Inline(runnable)] else [Push(poster, runnable), Signal(poster)])
      ensures Inv(View()) && (!onLoopThread ==> Coming(View(), |posted|) && posted == old(posted) + [runnable])
      ensures onLoopThread ==> inline == old(inline) + [runnable] && runnables == old(runnables)
    {
      if onLoopThread {
        RunOne(View(), Inline(runnable));
        StepKeepsInv(View(), Inline(runnable));
        inline := inline + [runnable];
      } else {
        PostRunnablePopStack(poster, runnable);
      }
    }

    /** `stopLoop`, whose own wake-up is on another channel. */
    method StopLoop()
      modifies `looping
      ensures !looping && View() == Next(old(View()), Stop)
    {
      looping := false;
    }

    /** The locked swap with an empty vector. */
    method SwapOut() returns (runs: seq<R>)
      requires Inv(View()) && loop == HaveRead
      modifies `runnables, `batch, `loop
      ensures View() == Next(old(View()), Swap) && runs == old(runnables) == batch && Inv(View())
    {
      StepKeepsInv(View(), Swap);
      runs := [];
      runs, runnables := runnables, runs;
      batch, loop := runs, Running;
    }

    method RunNext(runnable: R)
      requires Inv(View()) && loop == Running && batch != [] && batch[0] == runnable
      modifies `batch, `executed
      ensures View() == Next(old(View()), Execute) && Inv(View())
    {
      StepKeepsInv(View(), Execute);
      executed := executed + [runnable];
      batch := batch[1..];
    }

    /** `executeRunnables`: all that was queued, in order, and the way back. */
    method ExecuteRunnables()
      requires Inv(View()) && loop == HaveRead
      modifies `runnables, `batch, `loop, `executed
      ensures View() == Run(old(View()), [Swap] + Executes(|old(runnables)|) + [Return])
      ensures Inv(View()) && executed == old(posted) == posted && runnables == []
      ensures loop == if looping then Waiting else Exited
    {
      ghost var s0 := View();
      var runs := SwapOut();
      ghost var s1 := View();
      for i := 0 to |runs|
        invariant View() == Run(s1, Executes(i)) && Inv(View())
        invariant loop == Running && batch == runs[i..] && runnables == []
      {
        OneMoreExecute(s1, i);
        RunNext(runs[i]);
      }
      StepKeepsInv(View(), Return);
      BatchRun(s0, |runs|);
      assert executed + batch + runnables == executed;
      loop := if looping then Waiting else Exited;
    }

    /** `handleRead`: the whole counter, then the whole vector. The asserted read
        does not come up empty. */
    method HandleRead()
      requires Inv(View()) && loop == Reported
      modifies `counter, `runnables, `batch, `loop, `executed
      ensures View() == Run(old(View()), [Read] + ([Swap] + Executes(|old(runnables)|) + [Return]))
      ensures Inv(View()) && executed == old(posted) == posted && runnables == []
      ensures loop == if looping then Waiting else Exited
    {
      ghost var s0 := View();
      StepKeepsInv(s0, Read);
      assert counter > 0;
      counter, loop := 0, HaveRead;
      RunOne(s0, Read);
      RunJoin(s0, [Read], [Swap] + Executes(|runnables|) + [Return]);
      ExecuteRunnables();
    }

    /** One turn of `startLoop` for the channel of the runnables: `epoll_wait`
        reports its eventfd, or finds it unreadable and forgets the edge, or has
        nothing to report. After a report everything pushed has run. */
    method EventStep() returns (reported: bool)
      requires Inv(View()) && loop == Waiting && looping
      modifies this
      ensures Inv(View()) && loop == Waiting && looping && reported == (old(counter) > 0)
      ensures reported ==>
        && View() == Run(old(View()), [Report] + ([Read] + ([Swap] + Executes(|old(runnables)|) + [Return])))
        && executed == posted == old(posted) && runnables == []
      ensures !reported ==> View() == if old(edge) then Next(old(View()), Drop) else old(View())
    {
      ghost var s0 := View();
      reported := edge && counter > 0;
      edge := false;
      if reported {
        StepKeepsInv(s0, Report);
        RunOne(s0, Report);
        RunJoin(s0, [Report], [Read] + ([Swap] + Executes(|runnables|) + [Return]));
        loop := Reported;
        HandleRead();
      }
    }
  }
}
