/**
 The log pipeline as a value: the bytes in the cache of SingleCache.hpp, the
 blocks queued for the writer of LogFile.cpp, and the bytes of the file.
 */
module LogValues {
  import opened BufferValues
  import opened Options
  import opened Sequences

  /** The file is on disk whether it is open or not; the writer waits while it is not. */
  datatype Log = Log(cache: seq<Byte>, len: nat, queue: seq<seq<Byte>>, disk: seq<Byte>, open: bool)

  /** The first `at` bytes of the cache are in use, of a cache of at least `n` bytes. */
  predicate Ok(s: Log, n: nat) {
    s.len <= |s.cache| && n <= |s.cache|
  }

  /** What is in the file, queued, or in the first `at` bytes of the cache, in order. */
  function UpTo(s: Log, at: nat): seq<Byte>
    requires at <= |s.cache|
  {
    s.disk + Concat(s.queue) + s.cache[..at]
  }

  /** Everything that has been logged. */
  function Logged(s: Log): seq<Byte>
    requires s.len <= |s.cache|
  {
    UpTo(s, s.len)
  }

  /** `flushNoLock` */
  function Flush(s: Log): Log
    requires s.len <= |s.cache|
  {
    if s.len > 0 then s.(queue := s.queue + [s.cache[..s.len]], len := 0) else s
  }

  function Resize(cache: seq<Byte>, size: nat): (c: seq<Byte>)
    ensures |c| == size
  {
    if size <= |cache| then cache[..size] else cache + Zeros(size - |cache|)
  }

  /** `markUsed` with a cache of `n` bytes: the state with room for `size` bytes more. */
  function MarkUsed(s: Log, n: nat, size: nat): Log
    requires Ok(s, n)
  {
    if size <= n then
      var f := if size + s.len > n then Flush(s) else s;
      f.(len := f.len + size)
    else
      var f := Flush(s);
      f.(cache := Resize(f.cache, size), len := size)
  }

  /** The copy of `append` to the end of the bytes marked used. */
  function Put(s: Log, data: seq<Byte>): Log
    requires |data| <= s.len <= |s.cache|
  {
    s.(cache := s.cache[..s.len - |data|] + data + s.cache[s.len..])
  }

  /** `processNoLock` */
  function Process(s: Log): Log
    requires s.queue != []
  {
    s.(disk := s.disk + s.queue[0], queue := s.queue[1..])
  }

  /** A turn of the writer's loop: nothing to do while there is no block or no file. */
  function Turn(s: Log): Log {
    if s.queue != [] && s.open then Process(s) else s
  }

  function Turns(s: Log, k: nat): Log
    decreases k
  {
    if k == 0 then s else Turns(Turn(s), k - 1)
  }

  /** The end of the writer, which writes what is left; nothing when it would
      write to a file that is not open. */
  function Drain(s: Log): Option<Log>
    decreases |s.queue|
  {
    if s.queue == [] then Some(s)
    else if s.queue[0] != [] && !s.open then None
    else Drain(Process(s))
  }

  // ----- what each step keeps -----

  lemma FlushKeeps(s: Log, n: nat)
    requires Ok(s, n)
    ensures Ok(Flush(s), n) && Flush(s).len == 0 && Logged(Flush(s)) == Logged(s) == UpTo(Flush(s), 0)
    ensures Flush(s).disk == s.disk && Flush(s).open == s.open
  {
    if s.len > 0 {
      ConcatAppend(s.queue, [s.cache[..s.len]]);
      ConcatOne(s.cache[..s.len]);
      JoinAssociate(s.disk, Concat(s.queue), s.cache[..s.len]);
    }
    var f := Flush(s);
    assert f.disk + Concat(f.queue) + f.cache[..0] == f.disk + Concat(f.queue);
  }

  /** The room is at the end, and everything before it is what was logged before. */
  lemma MarkUsedKeeps(s: Log, n: nat, size: nat)
    requires Ok(s, n)
    ensures var m := MarkUsed(s, n, size);
      && Ok(m, n) && size <= m.len && UpTo(m, m.len - size) == Logged(s)
      && m.open == s.open
  {
    FlushKeeps(s, n);
  }

  lemma ProcessKeeps(s: Log, at: nat)
    requires s.queue != [] && at <= |s.cache|
    ensures UpTo(Process(s), at) == UpTo(s, at)
  {
    JoinAssociate(s.disk, s.queue[0], Concat(s.queue[1..]));
  }

  lemma {:induction false} TurnsKeep(s: Log, k: nat, at: nat)
    requires at <= |s.cache|
    ensures var t := Turns(s, k);
      && t.cache == s.cache && t.len == s.len && t.open == s.open && UpTo(t, at) == UpTo(s, at)
    decreases k
  {
    if k > 0 {
      if s.queue != [] { ProcessKeeps(s, at); }
      TurnsKeep(Turn(s), k - 1, at);
    }
  }

  lemma PutAdds(s: Log, data: seq<Byte>)
    requires |data| <= s.len <= |s.cache|
    ensures var t := Put(s, data);
      && |t.cache| == |s.cache| && Logged(t) == UpTo(s, s.len - |data|) + data
  {
    var t, at := Put(s, data), s.len - |data|;
    assert t.cache[..s.len] == s.cache[..at] + data;
    JoinAssociate(s.disk + Concat(s.queue), s.cache[..at], data);
  }

  lemma {:induction false} DrainWrites(s: Log)
    requires s.open && s.len <= |s.cache|
    ensures Drain(s).Some?
    ensures var t := Drain(s).value; t.queue == [] && t.disk == s.disk + Concat(s.queue) && t.len == s.len
    decreases |s.queue|
  {
    if s.queue == [] {
      assert s.disk + Concat(s.queue) == s.disk;
    } else {
      JoinAssociate(s.disk, s.queue[0], Concat(s.queue[1..]));
      DrainWrites(Process(s));
    }
  }

  lemma {:induction false} DrainClosed(s: Log)
    requires !s.open
    ensures Drain(s).Some? <==> Concat(s.queue) == []
    decreases |s.queue|
  {
    if s.queue != [] {
      if s.queue[0] != [] {
        assert |Concat(s.queue)| > 0;
      } else {
        DrainClosed(Process(s));
      }
    }
  }

  // ----- what each step does -----

  /** Each turn of the writer with an open file moves one block to its end. */
  lemma {:induction false} TurnsWrite(s: Log, k: nat)
    requires s.open
    ensures var j := if k < |s.queue| then k else |s.queue|;
      Turns(s, k) == s.(queue := s.queue[j..], disk := s.disk + Concat(s.queue[..j]))
    decreases k
  {
    var q := s.queue;
    if k == 0 || q == [] {
      assert s.disk + Concat(q[..0]) == s.disk && q[0..] == q;
      if k > 0 { TurnsWrite(s, k - 1); }
    } else {
      var j := if k < |q| then k else |q|;
      TurnsWrite(Turn(s), k - 1);
      assert q[..j][0] == q[0] && q[..j][1..] == q[1..][..j - 1] && q[1..][j - 1..] == q[j..];
      JoinAssociate(s.disk, q[0], Concat(q[1..][..j - 1]));
    }
  }

  /** A piece that fits behind the bytes in use goes there; otherwise all bytes in
      use are handed over in one block, if there are any, and the piece begins the
      cache, which grows only for a piece of more than `n` bytes. */
  lemma MarkUsedExactly(s: Log, n: nat, size: nat)
    requires Ok(s, n)
    ensures var m := MarkUsed(s, n, size);
      && m.disk == s.disk && m.open == s.open
      && (s.len + size <= n ==> m == s.(len := s.len + size))
      && (s.len + size > n ==>
            && m.len == size
            && m.queue == s.queue + (if s.len > 0 then [s.cache[..s.len]] else [])
            && (size <= n ==> m.cache == s.cache) && (size > n ==> |m.cache| == size))
  {}

  // ----- every schedule -----

  /** What the one appender does; `between` is how many turns the writer takes
      after the room has been marked and before the bytes are copied. */
  datatype Op = Append(data: seq<Byte>, between: nat) | FlushSafely | WriterTurn

  function Step(s: Log, n: nat, op: Op): Log
    requires Ok(s, n)
  {
    match op
    case Append(data, between) =>
      MarkUsedKeeps(s, n, |data|);
      TurnsKeep(MarkUsed(s, n, |data|), between, 0);
      Put(Turns(MarkUsed(s, n, |data|), between), data)
    case FlushSafely => Flush(s)
    case WriterTurn => Turn(s)
  }

  function Appended(ops: seq<Op>): seq<Byte> {
    if ops == [] then [] else (if ops[0].Append? then ops[0].data else []) + Appended(ops[1..])
  }

  lemma StepKeeps(s: Log, n: nat, op: Op)
    requires Ok(s, n)
    ensures Ok(Step(s, n, op), n) && Step(s, n, op).open == s.open
    ensures Logged(Step(s, n, op)) == Logged(s) + (if op.Append? then op.data else [])
  {
    match op
    case Append(data, between) =>
      var m := MarkUsed(s, n, |data|);
      MarkUsedKeeps(s, n, |data|);
      TurnsKeep(m, between, m.len - |data|);
      PutAdds(Turns(m, between), data);
    case FlushSafely =>
      FlushKeeps(s, n);
      assert Logged(s) + [] == Logged(s);
    case WriterTurn =>
      TurnsKeep(s, 1, s.len);
      assert Turns(s, 1) == Turn(s);
      assert Logged(s) + [] == Logged(s);
  }

  function Run(s: Log, n: nat, ops: seq<Op>): (t: Log)
    requires Ok(s, n)
    ensures Ok(t, n)
    decreases ops
  {
    if ops == [] then s else
      StepKeeps(s, n, ops[0]);
      Run(Step(s, n, ops[0]), n, ops[1..])
  }

  /** No byte logged is lost, doubled or moved, over any schedule. */
  lemma {:induction false} RunConserves(s: Log, n: nat, ops: seq<Op>)
    requires Ok(s, n)
    ensures Logged(Run(s, n, ops)) == Logged(s) + Appended(ops) && Run(s, n, ops).open == s.open
    decreases ops
  {
    if ops == [] {
      assert Logged(s) + [] == Logged(s);
    } else {
      StepKeeps(s, n, ops[0]);
      RunConserves(Step(s, n, ops[0]), n, ops[1..]);
      JoinAssociate(Logged(s), if ops[0].Append? then ops[0].data else [], Appended(ops[1..]));
    }
  }

  /** The pipeline when the constructors are done: an empty cache of `n` bytes
      and a file with what it held before, if it could be opened. */
  function Created(n: nat, disk: seq<Byte>, open: bool): Log {
    Log(Zeros(n), 0, [], disk, open)
  }

  /** Pieces that fit the cache together stay in it: nothing is handed over. */
  lemma {:induction false} SmallLogsStay(n: nat, s: Log, ops: seq<Op>)
    requires Ok(s, n) && s.queue == [] && s.len + |Appended(ops)| <= n
    requires forall i :: 0 <= i < |ops| ==> ops[i].Append?
    ensures var t := Run(s, n, ops);
      t.queue == [] && t.disk == s.disk && t.len == s.len + |Appended(ops)| && t.open == s.open
    decreases ops
  {
    if ops != [] {
      var size, between := |ops[0].data|, ops[0].between;
      MarkUsedExactly(s, n, size);
      NothingToWrite(MarkUsed(s, n, size), between);
      StepKeeps(s, n, ops[0]);
      SmallLogsStay(n, Step(s, n, ops[0]), ops[1..]);
    }
  }

  lemma {:induction false} NothingToWrite(s: Log, k: nat)
    requires s.queue == []
    ensures Turns(s, k) == s
    decreases k
  {
    if k > 0 { NothingToWrite(s, k - 1); }
  }

  /** The destructors: the cache is flushed, the writer takes some more turns
      before it stops, and what is left is written. */
  function Destroy(s: Log, turns: nat): Option<Log>
    requires s.len <= |s.cache|
  {
    Drain(Turns(Flush(s), turns))
  }

  /** With the file open, the file ends up with everything logged, in order,
      whatever the schedule. */
  lemma FileGetsAll(n: nat, disk: seq<Byte>, ops: seq<Op>, turns: nat)
    ensures var end := Destroy(Run(Created(n, disk, true), n, ops), turns);
      end.Some? && end.value.disk == disk + Appended(ops) && end.value.queue == [] && end.value.len == 0
  {
    var s0 := Created(n, disk, true);
    var s := Run(s0, n, ops);
    RunConserves(s0, n, ops);
    assert Logged(s0) == disk;
    FlushKeeps(s, n);
    var f := Flush(s);
    TurnsKeep(f, turns, 0);
    var t := Turns(f, turns);
    DrainWrites(t);
    assert UpTo(t, 0) == t.disk + Concat(t.queue);
  }

  /** The destructors write to a file that is not open exactly when the file
      could not be opened and something was logged. */
  lemma DestroyedExactly(n: nat, disk: seq<Byte>, open: bool, ops: seq<Op>, turns: nat)
    ensures Destroy(Run(Created(n, disk, open), n, ops), turns).Some? <==> open || Appended(ops) == []
  {
    if open {
      FileGetsAll(n, disk, ops, turns);
    } else {
      var s0 := Created(n, disk, false);
      var s := Run(s0, n, ops);
      RunConserves(s0, n, ops);
      FlushKeeps(s, n);
      RunNothingWritten(s0, n, ops);
      TurnsClosed(Flush(s), turns);
      DrainClosed(Flush(s));
      assert Logged(s0) == disk && UpTo(Flush(s), 0) == disk + Concat(Flush(s).queue);
      assert (disk + Appended(ops))[|disk|..] == Appended(ops);
      assert (disk + Concat(Flush(s).queue))[|disk|..] == Concat(Flush(s).queue);
    }
  }

  lemma {:induction false} TurnsClosed(s: Log, k: nat)
    requires !s.open
    ensures Turns(s, k) == s
    decreases k
  {
    if k > 0 { TurnsClosed(s, k - 1); }
  }

  lemma {:induction false} RunNothingWritten(s: Log, n: nat, ops: seq<Op>)
    requires Ok(s, n) && !s.open
    ensures Run(s, n, ops).disk == s.disk
    decreases ops
  {
    if ops != [] {
      StepKeeps(s, n, ops[0]);
      FlushKeeps(s, n);
      if ops[0].Append? { TurnsClosed(MarkUsed(s, n, |ops[0].data|), ops[0].between); }
      RunNothingWritten(Step(s, n, ops[0]), n, ops[1..]);
    }
  }
}
