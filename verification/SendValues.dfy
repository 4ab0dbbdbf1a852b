/**
 The send queue of TcpConnection as a list of byte strings, and what a result
 of the socket does to it.
 */
module SendValues {
  import opened BufferValues
  import opened Options
  import opened Sequences

  const WORD: nat := 0x1_0000_0000_0000_0000

  /** What is left of the queue when the socket has taken `n` bytes more. */
  function AfterSending(q: seq<seq<Byte>>, n: nat): seq<seq<Byte>> {
    if n == 0 || q == [] then q
    else if n >= |q[0]| then AfterSending(q[1..], n - |q[0]|)
    else [q[0][n..]] + q[1..]
  }

  /** Exactly the first `n` bytes are gone. */
  lemma {:induction false} AfterSendingDrops(q: seq<seq<Byte>>, n: nat)
    requires n <= |Concat(q)|
    ensures Concat(AfterSending(q, n)) == Concat(q)[n..]
    decreases q
  {
    if n != 0 && q != [] {
      if n >= |q[0]| {
        AfterSendingDrops(q[1..], n - |q[0]|);
      } else {
        assert ([q[0][n..]] + q[1..])[1..] == q[1..];
        assert Concat(q)[n..] == q[0][n..] + Concat(q[1..]);
      }
    }
  }

  // ----- the order of erasing and measuring -----

  /** Subtraction on a `size_t`, which wraps. */
  function Minus(n: nat, size: nat): (r: nat)
    requires n < WORD && size <= WORD
    ensures r < WORD && (r - (n - size)) % WORD == 0
  {
    if n >= size then n - size else n + WORD - size
  }

  /** The queue after `markSended` as the program has it, which measures the
      buffer that follows the erased one; nothing when there is none to measure. */
  function SendedAsWritten(q: seq<seq<Byte>>, n: nat): Option<seq<seq<Byte>>>
    requires n < WORD && |Concat(q)| < WORD / 2
  {
    if n == 0 || q == [] then Some(q)
    else if n >= |q[0]| then
      var t := q[1..];
      if t == [] then None else
        assert |t[0]| <= |Concat(t)|;
        SendedAsWritten(t, Minus(n, |t[0]|))
    else Some([q[0][n..]] + q[1..])
  }

  /** The number of buffers that are sent completely. */
  function SentWhole(q: seq<seq<Byte>>, n: nat): (j: nat)
    ensures j <= |q|
  {
    if n == 0 || q == [] || n < |q[0]| then 0 else 1 + SentWhole(q[1..], n - |q[0]|)
  }

  /** What `n` still has when the first `i` buffers are gone. */
  function Rest(q: seq<seq<Byte>>, n: int, i: nat): int
    requires i <= |q|
  {
    n - |Concat(q[..i])|
  }

  /** Measuring the wrong buffer makes no difference: there is one left, it is as
      long as the first was, and none of those sent stops the loop too early. */
  predicate Harmless(q: seq<seq<Byte>>, n: nat, first: nat) {
    var j := SentWhole(q, n);
    && j < |q| && |q[j]| == first
    && forall i :: 0 <= i < j ==> Rest(q, n, i) + first >= 2 * |q[i]|
  }

  lemma HarmlessTail(q: seq<seq<Byte>>, n: nat, first: nat)
    requires n != 0 && q != [] && n >= |q[0]|
    ensures Harmless(q, n, first) <==> n + first >= 2 * |q[0]| && Harmless(q[1..], n - |q[0]|, first)
  {
    var t, n1 := q[1..], n - |q[0]|;
    assert SentWhole(q, n) == 1 + SentWhole(t, n1);
    forall i | 0 <= i < |q|
      ensures Rest(q, n, i) == if i == 0 then n else Rest(t, n1, i - 1)
    {
      if i > 0 {
        assert q[..i][0] == q[0] && q[..i][1..] == t[..i - 1];
      }
    }
    if Harmless(q, n, first) {
      assert Rest(q, n, 0) == n;
      forall i | 0 <= i < SentWhole(t, n1)
        ensures Rest(t, n1, i) + first >= 2 * |t[i]|
      {
        assert Rest(q, n, i + 1) == Rest(t, n1, i);
      }
    }
  }

  lemma {:induction false} AsWrittenLength(q: seq<seq<Byte>>, n: nat)
    requires n < WORD && |Concat(q)| < WORD / 2
    ensures SendedAsWritten(q, n).Some? ==> |SendedAsWritten(q, n).value| <= |q|
    ensures SendedAsWritten(q, n).Some? && n > 0 && q != [] && n >= |q[0]| ==> |SendedAsWritten(q, n).value| < |q|
    decreases q
  {
    if n != 0 && |q| > 1 && n >= |q[0]| {
      AsWrittenLength(q[1..], Minus(n, |q[1]|));
    }
  }

  lemma {:induction false} AfterSendingLength(q: seq<seq<Byte>>, n: nat)
    ensures |AfterSending(q, n)| == |q| - SentWhole(q, n)
    decreases q
  {
    if n != 0 && q != [] && n >= |q[0]| {
      AfterSendingLength(q[1..], n - |q[0]|);
    }
  }

  lemma {:induction false} ConcatLength(q: seq<seq<Byte>>, i: nat)
    requires i < |q|
    ensures |q[i]| <= |Concat(q)|
    decreases q
  {
    if i > 0 {
      ConcatLength(q[1..], i - 1);
    }
  }

  /** A count that has wrapped below zero runs off the end of the queue. */
  lemma {:induction false} WrappedRunsOff(q: seq<seq<Byte>>, n: nat, most: nat)
    requires q != [] && 0 < most && forall i :: 0 <= i < |q| ==> |q[i]| <= most
    requires most + |Concat(q[1..])| <= n < WORD && |Concat(q)| < WORD / 2
    ensures SendedAsWritten(q, n).None?
    decreases q
  {
    if |q| > 1 {
      var t := q[1..];
      assert t[0] == q[1];
      WrappedRunsOff(t, n - |q[1]|, most);
    }
  }

  lemma {:induction false} StopsHere(q: seq<seq<Byte>>, rest: nat, here: nat)
    requires q != [] && (rest == 0 || rest < |q[0]|)
    requires here < WORD && |Concat(q)| < WORD / 2
    ensures SendedAsWritten(q, here) == Some(AfterSending(q, rest)) <==> here == rest
  {
    AsWrittenLength(q, here);
    AfterSendingLength(q, rest);
    assert AfterSending(q, rest)[0] == q[0][rest..];
    if here < |q[0]| {
      assert SendedAsWritten(q, here).value[0] == q[0][here..];
    }
  }

  lemma HarmlessHere(q: seq<seq<Byte>>, rest: nat, first: nat)
    requires q != [] && (rest == 0 || rest < |q[0]|)
    ensures Harmless(q, rest, first) <==> |q[0]| == first
  {}

  lemma TooShortHarms(q: seq<seq<Byte>>, rest: nat, first: nat)
    requires q != [] && 0 < rest && rest >= |q[0]|
    requires rest + first - |q[0]| == 0 || rest + first - |q[0]| < |q[0]| || |q| == 1
    ensures !Harmless(q, rest, first)
  {
    HarmlessTail(q, rest, first);
  }

  /** The loop with `rest` bytes to go, reached from a first buffer of `first` bytes. */
  lemma {:induction false} AsWrittenAt(q: seq<seq<Byte>>, rest: nat, first: nat)
    requires q != [] && rest <= |Concat(q)| < WORD / 2 && first + rest < WORD / 2 + |q[0]|
    ensures SendedAsWritten(q, Minus(rest + first, |q[0]|)) == Some(AfterSending(q, rest))
            <==> Harmless(q, rest, first)
    decreases q
  {
    var here := rest + first - |q[0]|;
    if here < 0 {
      AsWrittenWrapped(q, rest, first);
    } else if rest == 0 || rest < |q[0]| {
      StopsHere(q, rest, here);
      HarmlessHere(q, rest, first);
    } else if here == 0 || here < |q[0]| || |q| == 1 {
      AsWrittenTooShort(q, rest, here);
      TooShortHarms(q, rest, first);
    } else {
      GoesOn(q, here, rest);
      AsWrittenAt(q[1..], rest - |q[0]|, first);
      HarmlessTail(q, rest, first);
    }
  }

  lemma {:induction false} GoesOn(q: seq<seq<Byte>>, here: nat, rest: nat)
    requires |q| > 1 && 0 < here < WORD && 0 < rest && here >= |q[0]| && rest >= |q[0]| && |Concat(q)| < WORD / 2
    ensures |Concat(q)| == |q[0]| + |Concat(q[1..])| && |q[1..][0]| <= |Concat(q[1..])|
    ensures SendedAsWritten(q, here) == SendedAsWritten(q[1..], Minus(here, |q[1..][0]|))
    ensures AfterSending(q, rest) == AfterSending(q[1..], rest - |q[0]|)
  {}

  lemma {:induction false} AsWrittenWrapped(q: seq<seq<Byte>>, rest: nat, first: nat)
    requires q != [] && |Concat(q)| < WORD / 2 && rest + first < |q[0]|
    ensures SendedAsWritten(q, Minus(rest + first, |q[0]|)).None? && !Harmless(q, rest, first)
  {
    forall i | 0 <= i < |q| ensures |q[i]| <= |Concat(q)| { ConcatLength(q, i); }
    WrappedRunsOff(q, Minus(rest + first, |q[0]|), |Concat(q)|);
  }

  lemma {:induction false} AsWrittenTooShort(q: seq<seq<Byte>>, rest: nat, here: nat)
    requires q != [] && 0 < rest && rest >= |q[0]| && |Concat(q)| < WORD / 2
    requires here < WORD && (here == 0 || here < |q[0]| || |q| == 1)
    ensures SendedAsWritten(q, here) != Some(AfterSending(q, rest))
  {
    AfterSendingLength(q, rest);
  }

  /** As it is written, `markSended` leaves the right queue exactly when measuring
      the wrong buffer is harmless. */
  lemma SendedExactly(q: seq<seq<Byte>>, n: nat)
    requires q != [] && 0 < n <= |Concat(q)| < WORD / 2
    ensures SendedAsWritten(q, n) == Some(AfterSending(q, n)) <==> Harmless(q, n, |q[0]|)
  {
    AsWrittenAt(q, n, |q[0]|);
    assert Minus(n + |q[0]|, |q[0]|) == n;
  }

  /** Two bytes sent of a buffer of one and a buffer of two: the loop as written
      takes the second buffer's length for the first's, and leaves in the queue a
      byte that has been sent. */
  lemma SendedWrong()
    ensures SendedAsWritten([[1], [2, 3]], 2) == Some([[2, 3]])
    ensures AfterSending([[1], [2, 3]], 2) == [[3]]
  {
    var q: seq<seq<Byte>> := [[1], [2, 3]];
    assert q[1..] == [[2, 3]];
    assert Concat(q[1..]) == [2, 3] && Concat(q) == [1, 2, 3];
  }

  /** An unsigned -1 for the bytes sent drops the whole queue: nothing of it
      reaches the socket, and as written the loop also runs off its end. */
  lemma {:induction false} UnsignedResultLosesQueue(q: seq<seq<Byte>>)
    requires |Concat(q)| < WORD / 2
    ensures AfterSending(q, WORD - 1) == []
    ensures q != [] ==> SendedAsWritten(q, WORD - 1).None?
  {
    DropsAll(q, WORD - 1);
    if q != [] {
      forall i | 0 <= i < |q| ensures |q[i]| <= WORD / 2 { ConcatLength(q, i); }
      WrappedRunsOff(q, WORD - 1, WORD / 2);
    }
  }

  lemma {:induction false} DropsAll(q: seq<seq<Byte>>, n: nat)
    requires n > |Concat(q)|
    ensures AfterSending(q, n) == []
    decreases q
  {
    if q != [] {
      DropsAll(q[1..], n - |q[0]|);
    }
  }

  // ----- a buffer queued twice -----

  /** A queue of references, by number, into a store of buffers. */
  datatype Shared = Shared(list: seq<nat>, store: map<nat, seq<Byte>>)

  predicate AllStored(s: Shared) {
    forall i :: 0 <= i < |s.list| ==> s.list[i] in s.store
  }

  function Queued(s: Shared): (q: seq<seq<Byte>>)
    requires AllStored(s)
    ensures |q| == |s.list|
  {
    seq(|s.list|, i requires 0 <= i < |s.list| => s.store[s.list[i]])
  }

  /** `markSended`: erasing drops a reference, marking read changes the buffer. */
  function SharedSended(s: Shared, n: nat): (t: Shared)
    requires AllStored(s)
    ensures AllStored(t)
    decreases s.list
  {
    if n == 0 || s.list == [] then s
    else
      var b := s.list[0];
      if n >= |s.store[b]| then SharedSended(s.(list := s.list[1..]), n - |s.store[b]|)
      else s.(store := s.store[b := s.store[b][n..]])
  }

  /** The bytes sent of the first buffer that is not sent completely. */
  function SentOfNext(q: seq<seq<Byte>>, n: nat): nat {
    if n == 0 || q == [] || n < |q[0]| then n else SentOfNext(q[1..], n - |q[0]|)
  }

  /** The buffer that is trimmed, if one is, is not queued again behind. */
  predicate TrimmedOnce(s: Shared, n: nat)
    requires AllStored(s)
  {
    var j := SentWhole(Queued(s), n);
    j == |s.list| || SentOfNext(Queued(s), n) == 0 || s.list[j] !in s.list[j + 1..]
  }

  lemma TrimShared(s: Shared, n: nat)
    requires AllStored(s) && s.list != [] && 0 < n < |s.store[s.list[0]]|
    ensures Queued(SharedSended(s, n)) == AfterSending(Queued(s), n) <==> s.list[0] !in s.list[1..]
  {
    var b, t, q := s.list[0], SharedSended(s, n), Queued(s);
    assert AfterSending(q, n) == [q[0][n..]] + q[1..];
    if b in s.list[1..] {
      var i :| 1 <= i < |s.list| && s.list[i] == b;
      assert Queued(t)[i] == s.store[b][n..] != q[i] == AfterSending(q, n)[i];
    } else {
      forall i | 0 <= i < |s.list|
        ensures Queued(t)[i] == AfterSending(q, n)[i]
      {
        assert i > 0 ==> s.list[i] == s.list[1..][i - 1];
      }
    }
  }

  lemma QueuedTail(s: Shared)
    requires AllStored(s) && s.list != []
    ensures AllStored(s.(list := s.list[1..])) && Queued(s.(list := s.list[1..])) == Queued(s)[1..]
  {}

  lemma TailBehind<T>(list: seq<T>, j: nat)
    requires j + 1 < |list|
    ensures list[1..][j] == list[j + 1] && list[1..][j + 1..] == list[j + 2..]
  {}

  lemma TrimmedOnceTail(s: Shared, n: nat)
    requires AllStored(s) && s.list != [] && n != 0 && n >= |s.store[s.list[0]]|
    ensures AllStored(s.(list := s.list[1..]))
    ensures TrimmedOnce(s, n) <==> TrimmedOnce(s.(list := s.list[1..]), n - |s.store[s.list[0]]|)
  {
    QueuedTail(s);
    var q, m := Queued(s), n - |s.store[s.list[0]]|;
    var j := SentWhole(q[1..], m);
    assert SentWhole(q, n) == 1 + j && SentOfNext(q, n) == SentOfNext(q[1..], m);
    if j < |q| - 1 {
      TailBehind(s.list, j);
    }
  }

  /** With buffers that may be queued more than once, the queue is the right one
      exactly when the buffer that is trimmed is not queued again. */
  lemma {:induction false} SharedSendedExactly(s: Shared, n: nat)
    requires AllStored(s)
    ensures Queued(SharedSended(s, n)) == AfterSending(Queued(s), n) <==> TrimmedOnce(s, n)
    decreases s.list
  {
    if n != 0 && s.list != [] {
      var b := s.list[0];
      if n >= |s.store[b]| {
        QueuedTail(s);
        TrimmedOnceTail(s, n);
        SharedSendedExactly(s.(list := s.list[1..]), n - |s.store[b]|);
      } else {
        TrimShared(s, n);
      }
    }
  }

  // ----- the connection over every run -----

  const VEC_MAX: nat := 50

  /** What `writev` answers: the most it takes, and whether `errno` says to try
      again when that is nothing. */
  datatype Answer = Answer(most: nat, again: bool)

  /** The queue, the bytes the socket has taken, the events the channel watches,
      and whether the connection is still open. */
  datatype Conn = Conn(queue: seq<seq<Byte>>, taken: seq<Byte>, reading: bool, writing: bool, open: bool)

  /** The buffers of one `writev`. */
  function Offered(q: seq<seq<Byte>>): seq<seq<Byte>> {
    if |q| > VEC_MAX then q[..VEC_MAX] else q
  }

  function Min(a: nat, b: nat): nat {
    if a < b then a else b
  }

  /** The bytes of a `writev` and the queue after it. */
  function Written(c: Conn, n: nat): Conn
    requires n <= |Concat(Offered(c.queue))|
  {
    c.(queue := AfterSending(c.queue, n), taken := c.taken + Concat(Offered(c.queue))[..n])
  }

  /** `enableWrite` replaces the events that were watched. */
  function Blocked(c: Conn): Conn {
    c.(reading := false, writing := true)
  }

  predicate SendGoesOn(c: Conn, a: Answer) {
    Min(a.most, |Concat(Offered(c.queue))|) > 0
  }

  /** One turn of the loop of `sendInternal`. */
  function SendOnce(c: Conn, a: Answer): Conn {
    if SendGoesOn(c, a) then Written(c, Min(a.most, |Concat(Offered(c.queue))|))
    else if a.again then Blocked(c)
    else c.(open := false)
  }

  /** One turn with the result of `writev`, -1 or the bytes taken, as it is meant. */
  function TurnMeant(c: Conn, result: int, again: bool): Conn {
    SendOnce(c, Answer(if result < 0 then 0 else result, again))
  }

  /** The turn as the program has it: the result is stored unsigned. */
  function TurnAsWritten(c: Conn, result: int, again: bool): Conn
    requires -1 <= result <= |Concat(Offered(c.queue))|
  {
    if result < 0 then c.(queue := AfterSending(c.queue, result + WORD)) else TurnMeant(c, result, again)
  }

  /** As it is written, a turn leaves the connection it should exactly when
      `writev` has not failed; and it loses no byte exactly when that is so or
      the queue holds no byte. */
  lemma UnsignedResultExactly(c: Conn, result: int, again: bool)
    requires c.queue != [] && |Concat(c.queue)| < WORD / 2 && -1 <= result <= |Concat(Offered(c.queue))|
    ensures TurnAsWritten(c, result, again) == TurnMeant(c, result, again) <==> result >= 0
    ensures var d := TurnAsWritten(c, result, again);
      d.taken + Concat(d.queue) == c.taken + Concat(c.queue) <==> result >= 0 || Concat(c.queue) == []
  {
    var d := TurnAsWritten(c, result, again);
    if result < 0 {
      UnsignedResultLosesQueue(c.queue);
      assert |d.taken + Concat(d.queue)| == |c.taken|;
      if Concat(c.queue) == [] {
        assert d.taken + Concat(d.queue) == c.taken + Concat(c.queue);
      }
    } else if result > 0 {
      WrittenConserves(c, result);
    }
  }

  /** `sendInternal`, with the answers of the socket; when they end, try again. */
  function SendInternal(c: Conn, answers: seq<Answer>): Conn
    decreases answers
  {
    if c.queue == [] then c
    else if answers == [] then Blocked(c)
    else if SendGoesOn(c, answers[0]) then SendInternal(SendOnce(c, answers[0]), answers[1..])
    else SendOnce(c, answers[0])
  }

  lemma OfferedPrefix(q: seq<seq<Byte>>, n: nat)
    requires n <= |Concat(Offered(q))|
    ensures n <= |Concat(q)| && Concat(Offered(q))[..n] == Concat(q)[..n]
  {
    var o := Offered(q);
    assert q == o + q[|o|..];
    ConcatAppend(o, q[|o|..]);
  }

  lemma WrittenConserves(c: Conn, n: nat)
    requires n <= |Concat(Offered(c.queue))|
    ensures Written(c, n).taken + Concat(Written(c, n).queue) == c.taken + Concat(c.queue)
  {
    OfferedPrefix(c.queue, n);
    AfterSendingDrops(c.queue, n);
    var all := Concat(c.queue);
    assert all == all[..n] + all[n..];
    JoinAssociate(c.taken, all[..n], all[n..]);
  }

  /** No byte is lost, doubled or moved, and what is still queued is waited for
      unless the connection has been closed. */
  lemma {:induction false} SendConserves(c: Conn, answers: seq<Answer>)
    ensures var d := SendInternal(c, answers);
      && d.taken + Concat(d.queue) == c.taken + Concat(c.queue)
      && (d.queue != [] ==> d.writing || !d.open)
    decreases answers
  {
    if c.queue != [] && answers != [] {
      if SendGoesOn(c, answers[0]) {
        WrittenConserves(c, Min(answers[0].most, |Concat(Offered(c.queue))|));
        SendConserves(SendOnce(c, answers[0]), answers[1..]);
      }
    }
  }

  /** `send` and `sendMultiple` in the looper's thread, or the socket becoming
      writable, which is reported once. */
  datatype Event = Send(datas: seq<seq<Byte>>, answers: seq<Answer>) | Writable(answers: seq<Answer>)

  function Step(c: Conn, e: Event): Conn {
    match e
    case Send(datas, answers) => SendInternal(c.(queue := c.queue + datas), answers)
    case Writable(answers) => if c.writing then SendInternal(c.(writing := false), answers) else c
  }

  function Run(c: Conn, es: seq<Event>): Conn
    decreases es
  {
    if es == [] then c else Run(Step(c, es[0]), es[1..])
  }

  /** Everything that was given to `send`, in order. */
  function Enqueued(es: seq<Event>): seq<Byte> {
    if es == [] then []
    else (if es[0].Send? then Concat(es[0].datas) else []) + Enqueued(es[1..])
  }

  predicate Waited(c: Conn) {
    c.queue != [] ==> c.writing || !c.open
  }

  lemma StepConserves(c: Conn, e: Event)
    requires Waited(c)
    ensures Waited(Step(c, e))
    ensures Step(c, e).taken + Concat(Step(c, e).queue) == c.taken + Concat(c.queue) + Enqueued([e])
  {
    match e
    case Send(datas, answers) =>
      SendConserves(c.(queue := c.queue + datas), answers);
      ConcatAppend(c.queue, datas);
      JoinAssociate(c.taken, Concat(c.queue), Concat(datas));
      assert Enqueued([e]) == Concat(datas);
    case Writable(answers) =>
      SendConserves(c.(writing := false), answers);
      assert Enqueued([e]) == [];
  }

  lemma {:induction false} RunConserves(c: Conn, es: seq<Event>)
    requires Waited(c)
    ensures Waited(Run(c, es))
    ensures Run(c, es).taken + Concat(Run(c, es).queue) == c.taken + Concat(c.queue) + Enqueued(es)
    decreases es
  {
    if es == [] {
      assert c.taken + Concat(c.queue) + Enqueued(es) == c.taken + Concat(c.queue);
    } else {
      StepConserves(c, es[0]);
      RunConserves(Step(c, es[0]), es[1..]);
      EnqueuedFirst(es);
      JoinAssociate(c.taken + Concat(c.queue), Enqueued([es[0]]), Enqueued(es[1..]));
    }
  }

  lemma EnqueuedFirst(es: seq<Event>)
    requires es != []
    ensures Enqueued(es) == Enqueued([es[0]]) + Enqueued(es[1..])
  {
    assert [es[0]][1..] == [];
  }

  /** A new connection: nothing queued, reading watched. */
  const NEW_CONN := Conn([], [], true, false, true)

  /**
   Over every run of a new connection, whatever the socket answers: what it has
   taken, followed by what is queued, is everything enqueued, in order; and
   bytes that stay queued are waited for or the connection has been closed.
   */
  lemma SendQueueConserves(es: seq<Event>)
    ensures var c := Run(NEW_CONN, es);
      && c.taken + Concat(c.queue) == Enqueued(es)
      && (c.queue != [] ==> c.writing || !c.open)
  {
    RunConserves(NEW_CONN, es);
    assert [] + Concat([]) + Enqueued(es) == Enqueued(es);
  }

  // ----- what the socket would take is sent -----

  /** Every answer is used: the socket takes the first bytes of the queue, as many
      as it answers and is offered, and sending goes on with the next answer; an
      answer of nothing ends it, waiting or closed as `errno` says. */
  lemma SendUsesAnswers(c: Conn, answers: seq<Answer>)
    requires c.queue != [] && answers != []
    ensures var k, d := Min(answers[0].most, |Concat(Offered(c.queue))|), SendInternal(c, answers);
      && k <= |Concat(c.queue)| && c.taken + Concat(c.queue)[..k] <= d.taken
      && (k > 0 ==> d == SendInternal(Conn(AfterSending(c.queue, k), c.taken + Concat(c.queue)[..k],
                                           c.reading, c.writing, c.open), answers[1..]))
      && (k == 0 ==> d.queue == c.queue && d.taken == c.taken && d.open == (c.open && answers[0].again))
      && (k == 0 && answers[0].again ==> d.writing && !d.reading)
  {
    var k := Min(answers[0].most, |Concat(Offered(c.queue))|);
    OfferedPrefix(c.queue, k);
    if k > 0 {
      TakenGrows(SendOnce(c, answers[0]), answers[1..]);
    }
  }

  lemma {:induction false} TakenGrows(c: Conn, answers: seq<Answer>)
    ensures c.taken <= SendInternal(c, answers).taken
    decreases answers
  {
    if c.queue != [] && answers != [] && SendGoesOn(c, answers[0]) {
      TakenGrows(SendOnce(c, answers[0]), answers[1..]);
    }
  }

  /** One `writev` offers the first 50 buffers, or all when there are fewer. */
  lemma OfferedFirst(q: seq<seq<Byte>>)
    ensures Offered(q) <= q && |Offered(q)| == if |q| < 50 then |q| else 50
  {}

  /** How many of `total` bytes the answers take, one after the other, until one
      takes nothing. */
  function Asked(total: nat, answers: seq<Answer>): (n: nat)
    ensures n <= total
  {
    if answers == [] || answers[0].most == 0 || total == 0 then 0
    else if answers[0].most >= total then total
    else answers[0].most + Asked(total - answers[0].most, answers[1..])
  }

  lemma AskedNext(total: nat, answers: seq<Answer>)
    requires answers != [] && Min(answers[0].most, total) > 0
    ensures var k := Min(answers[0].most, total);
      Asked(total, answers) == k + Asked(total - k, answers[1..])
  {}

  lemma SendOnceSmall(c: Conn, a: Answer)
    requires c.queue != [] && |c.queue| <= 50
    ensures var all, k := Concat(c.queue), Min(a.most, |Concat(c.queue)|);
      && (SendGoesOn(c, a) <==> k > 0)
      && (k > 0 ==>
            && |SendOnce(c, a).queue| <= 50 && Concat(SendOnce(c, a).queue) == all[k..]
            && SendOnce(c, a).taken == c.taken + all[..k])
  {
    var k := Min(a.most, |Concat(c.queue)|);
    AfterSendingDrops(c.queue, k);
    AfterSendingLength(c.queue, k);
  }

  /** A queue that fits one `writev` is sent as far as the answers go. */
  lemma {:induction false} SendTakesAsked(c: Conn, answers: seq<Answer>)
    requires |c.queue| <= 50
    ensures SendInternal(c, answers).taken == c.taken + Concat(c.queue)[..Asked(|Concat(c.queue)|, answers)]
    decreases answers
  {
    var all := Concat(c.queue);
    if c.queue != [] && answers != [] {
      SendOnceSmall(c, answers[0]);
    }
    if c.queue != [] && answers != [] && SendGoesOn(c, answers[0]) {
      var k := Min(answers[0].most, |all|);
      SendTakesAsked(SendOnce(c, answers[0]), answers[1..]);
      AskedNext(|all|, answers);
      TakeInTwo(c.taken, all, k, Asked(|all| - k, answers[1..]));
    } else {
      TakeNone(c.taken, all);
    }
  }

  lemma TakeNone(taken: seq<Byte>, all: seq<Byte>)
    ensures taken + all[..0] == taken
  {}

  lemma TakeInTwo(taken: seq<Byte>, all: seq<Byte>, k: nat, m: nat)
    requires k + m <= |all|
    ensures (taken + all[..k]) + all[k..][..m] == taken + all[..k + m]
  {}

  /** The socket takes all it is offered, and answers often enough. */
  predicate TakesAll(q: seq<seq<Byte>>, answers: seq<Answer>) {
    && |q| <= 50 * |answers|
    && (forall i :: 0 <= i < |answers| ==> answers[i].most >= |Concat(q)|)
    && (forall i :: 0 <= i < |q| ==> q[i] != [])
  }

  lemma {:induction false} WholeBuffersGo(o: seq<seq<Byte>>, rest: seq<seq<Byte>>)
    requires forall i :: 0 <= i < |o| ==> o[i] != []
    ensures AfterSending(o + rest, |Concat(o)|) == rest
    ensures o != [] ==> |Concat(o)| > 0
    decreases o
  {
    if o == [] {
      assert o + rest == rest;
    } else {
      assert (o + rest)[0] == o[0] && (o + rest)[1..] == o[1..] + rest;
      WholeBuffersGo(o[1..], rest);
    }
  }

  lemma TakesAllNext(q: seq<seq<Byte>>, answers: seq<Answer>)
    requires TakesAll(q, answers) && q != []
    ensures var o := Offered(q);
      && answers != [] && 0 < |Concat(o)| <= |Concat(q)| <= answers[0].most
      && AfterSending(q, |Concat(o)|) == q[|o|..] && TakesAll(q[|o|..], answers[1..])
      && Concat(q) == Concat(o) + Concat(q[|o|..])
  {
    var o := Offered(q);
    assert q == o + q[|o|..];
    WholeBuffersGo(o, q[|o|..]);
    ConcatAppend(o, q[|o|..]);
  }

  /** A socket that takes all it is offered leaves nothing queued and every watch
      as it was. */
  lemma {:induction false} AllSent(c: Conn, answers: seq<Answer>)
    requires TakesAll(c.queue, answers)
    ensures SendInternal(c, answers) == c.(queue := [], taken := c.taken + Concat(c.queue))
    decreases answers
  {
    if c.queue == [] {
      assert c.taken + Concat(c.queue) == c.taken;
    } else {
      TakesAllNext(c.queue, answers);
      var o, d := Offered(c.queue), SendOnce(c, answers[0]);
      assert Concat(o)[..|Concat(o)|] == Concat(o);
      AllSent(d, answers[1..]);
      JoinAssociate(c.taken, Concat(o), Concat(c.queue[|o|..]));
    }
  }

  /** Over every run in which the socket takes all it is offered, everything
      enqueued has been taken and the connection goes on reading. */
  lemma {:induction false} EverythingSent(c: Conn, es: seq<Event>)
    requires c.queue == [] && !c.writing
    requires forall i :: 0 <= i < |es| && es[i].Send? ==> TakesAll(es[i].datas, es[i].answers)
    ensures Run(c, es) == c.(taken := c.taken + Enqueued(es))
    decreases es
  {
    if es == [] {
      assert c.taken + Enqueued(es) == c.taken;
    } else {
      var d := Step(c, es[0]);
      if es[0].Send? {
        assert c.queue + es[0].datas == es[0].datas;
        AllSent(c.(queue := es[0].datas), es[0].answers);
        EverythingSent(d, es[1..]);
        JoinAssociate(c.taken, Concat(es[0].datas), Enqueued(es[1..]));
      } else {
        EverythingSent(d, es[1..]);
      }
    }
  }

  /** A write event that was waited for goes on sending with the first answer. */
  lemma WritableSends(c: Conn, answers: seq<Answer>)
    requires c.writing && c.queue != [] && answers != []
    ensures c.taken + Concat(Offered(c.queue))[..Min(answers[0].most, |Concat(Offered(c.queue))|)]
            <= Step(c, Writable(answers)).taken
  {
    var k := Min(answers[0].most, |Concat(Offered(c.queue))|);
    SendUsesAnswers(c.(writing := false), answers);
    OfferedPrefix(c.queue, k);
  }

  // ----- reading stops when a send has to wait -----

  lemma {:induction false} SendReading(c: Conn, answers: seq<Answer>)
    ensures var d := SendInternal(c, answers);
      (d.reading ==> c.reading) && (d.reading && d.open ==> d.queue == [])
    decreases answers
  {
    if c.queue != [] && answers != [] {
      if SendGoesOn(c, answers[0]) { SendReading(SendOnce(c, answers[0]), answers[1..]); }
    }
  }

  lemma {:induction false} RunReading(c: Conn, es: seq<Event>)
    requires c.reading && c.open ==> c.queue == []
    ensures var d := Run(c, es);
      (d.reading ==> c.reading) && (d.reading && d.open ==> d.queue == [])
    decreases es
  {
    if es != [] {
      match es[0] {
        case Send(datas, answers) => SendReading(c.(queue := c.queue + datas), answers);
        case Writable(answers) => SendReading(c.(writing := false), answers);
      }
      RunReading(Step(c, es[0]), es[1..]);
    }
  }

  /** No bytes are left waiting after any of the events. */
  ghost predicate NeverWaits(c: Conn, es: seq<Event>) {
    forall i :: 0 <= i <= |es| ==> Run(c, es[..i]).queue == []
  }

  lemma NeverWaitsStep(c: Conn, es: seq<Event>)
    requires es != []
    ensures NeverWaits(c, es) <==> c.queue == [] && NeverWaits(Step(c, es[0]), es[1..])
  {
    forall i | 0 < i <= |es|
      ensures Run(c, es[..i]) == Run(Step(c, es[0]), es[1..][..i - 1])
    {
      assert es[..i][1..] == es[1..][..i - 1];
    }
    assert Run(c, es[..0]) == c;
    if NeverWaits(c, es) {
      forall i | 0 <= i <= |es[1..]|
        ensures Run(Step(c, es[0]), es[1..][..i]).queue == []
      {
        assert Run(c, es[..i + 1]).queue == [];
      }
    }
  }

  /** A send that leaves nothing on an open connection changes no watch, and a
      closed connection stays closed. */
  lemma {:induction false} SendKeepsWatch(c: Conn, answers: seq<Answer>)
    ensures var d := SendInternal(c, answers);
      (d.open && d.queue == [] ==> d.reading == c.reading) && (d.open ==> c.open)
    decreases answers
  {
    if c.queue != [] && answers != [] && SendGoesOn(c, answers[0]) {
      SendKeepsWatch(SendOnce(c, answers[0]), answers[1..]);
    }
  }

  lemma StepKeepsWatch(c: Conn, e: Event)
    ensures var d := Step(c, e);
      && (d.open && d.queue == [] && c.queue == [] ==> d.reading == c.reading)
      && (d.open ==> c.open)
      && (d.reading ==> c.reading)
      && (d.open && d.reading && (c.reading ==> c.queue == []) ==> d.queue == [])
  {
    match e
    case Send(datas, answers) =>
      SendKeepsWatch(c.(queue := c.queue + datas), answers);
      SendReading(c.(queue := c.queue + datas), answers);
    case Writable(answers) =>
      if c.writing {
        SendKeepsWatch(c.(writing := false), answers);
        SendReading(c.(writing := false), answers);
      }
  }

  lemma {:induction false} RunOpen(c: Conn, es: seq<Event>)
    ensures Run(c, es).open ==> c.open
    decreases es
  {
    if es != [] {
      StepKeepsWatch(c, es[0]);
      RunOpen(Step(c, es[0]), es[1..]);
    }
  }

  lemma {:induction false} RunReadingExactly(c: Conn, es: seq<Event>)
    requires Run(c, es).open && (c.reading ==> c.queue == [])
    ensures Run(c, es).reading <==> c.reading && NeverWaits(c, es)
    decreases es
  {
    if es == [] {
      assert es[..0] == es;
    } else {
      var d := Step(c, es[0]);
      StepKeepsWatch(c, es[0]);
      RunOpen(d, es[1..]);
      RunReadingExactly(d, es[1..]);
      NeverWaitsStep(c, es);
      if NeverWaits(d, es[1..]) {
        assert Run(d, es[1..][..0]) == d;
      }
    }
  }

  /** Waiting to write takes the place of reading: while a connection is open, it
      watches for reads exactly if no event has left bytes waiting in its queue. */
  lemma ReadingExactly(es: seq<Event>)
    requires Run(NEW_CONN, es).open
    ensures Run(NEW_CONN, es).reading <==> forall i :: 0 <= i <= |es| ==> Run(NEW_CONN, es[..i]).queue == []
  {
    RunReadingExactly(NEW_CONN, es);
  }

  /** One byte that the socket does not take is enough. */
  lemma ReadingStops()
    ensures var c := Run(NEW_CONN, [Send([[0]], [])]);
      c.open && c.queue == [[0]] && !c.reading
  {
    assert NEW_CONN.queue + [[0]] == [[0]];
    assert [Send([[0]], [])][1..] == [];
  }

  /** And it does not come back: once bytes have been left in the queue of an open
      connection, no later run of sends watches for reads. */
  lemma ReadingEndsForGood(es: seq<Event>, later: seq<Event>)
    requires Run(NEW_CONN, es).queue != [] && Run(NEW_CONN, es).open
    ensures !Run(NEW_CONN, es).reading && !Run(Run(NEW_CONN, es), later).reading
  {
    RunReading(NEW_CONN, es);
    RunReading(Run(NEW_CONN, es), later);
  }
}
