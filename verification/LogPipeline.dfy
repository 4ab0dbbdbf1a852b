/** SingleCache and DailyLogFile in place, proved against `LogValues`. */
module LogPipeline {
  import opened BufferValues
  import opened LogValues

  class DailyLogFile {
    var cacheQueue: seq<seq<Byte>>
    var logging: bool
    var ready: bool
    /** What the file holds, and whether it is open. */
    var disk: seq<Byte>
    var open: bool

    /** The file, with what it held before, if `canOpen`. */
    constructor (before: seq<Byte>, canOpen: bool)
      ensures logging && ready == open == canOpen && disk == before && cacheQueue == []
    {
      cacheQueue, logging, disk, ready, open := [], true, before, canOpen, canOpen;
    }

    /** Takes a block, unless the logging has ended. */
    method Flush(block: seq<Byte>)
      modifies `cacheQueue
      ensures cacheQueue == if logging then old(cacheQueue) + [block] else old(cacheQueue)
    {
      if logging {
        cacheQueue := cacheQueue + [block];
      }
    }

    /** Writes the first block; false when the file is not open. */
    method ProcessNoLock() returns (ok: bool)
      requires cacheQueue != []
      modifies `cacheQueue, `disk
      ensures ok == (open || old(cacheQueue)[0] == [])
      ensures ok ==> cacheQueue == old(cacheQueue)[1..] && disk == old(disk) + old(cacheQueue)[0]
    {
      var cache := cacheQueue[0];
      ok := true;
      if |cache| > 0 {
        if !open {
          return false;
        }
        disk := disk + cache;
      }
      cacheQueue := cacheQueue[1..];
    }

    /** A turn of the writer's loop, which waits while there is nothing to write
        or no file. */
    method LooperTurn()
      requires ready == open && logging
      modifies `cacheQueue, `disk
      ensures if old(cacheQueue) != [] && open
        then cacheQueue == old(cacheQueue)[1..] && disk == old(disk) + old(cacheQueue)[0]
        else cacheQueue == old(cacheQueue) && disk == old(disk)
    {
      if cacheQueue == [] || !ready {
        return;
      }
      var ok := ProcessNoLock();
    }

    /** The destructor, after the writer has stopped; false when it writes to a
        file that is not open. */
    method Destroy(ghost cache: seq<Byte>) returns (ok: bool)
      modifies `cacheQueue, `disk, `logging
      ensures ok == Drain(Log(cache, 0, old(cacheQueue), old(disk), open)).Some?
      ensures ok ==>
        Log(cache, 0, cacheQueue, disk, open) == Drain(Log(cache, 0, old(cacheQueue), old(disk), open)).value
      ensures !logging
    {
      logging := false;
      while cacheQueue != []
        invariant Drain(Log(cache, 0, cacheQueue, disk, open)) == Drain(Log(cache, 0, old(cacheQueue), old(disk), open))
        invariant !logging
        decreases |cacheQueue|
      {
        ok := ProcessNoLock();
        if !ok {
          return;
        }
      }
      ok := true;
    }
  }

  class SingleCache {
    const n: nat
    var len: nat
    var cache: seq<Byte>
    const ops: DailyLogFile

    ghost function View(): Log
      reads this, ops
    {
      Log(cache, len, ops.cacheQueue, ops.disk, ops.open)
    }

    ghost predicate Valid()
      reads this, ops
    {
      Ok(View(), n) && ops.ready == ops.open && ops.logging
    }

    constructor (n: nat, before: seq<Byte>, canOpen: bool)
      ensures Valid() && fresh(ops) && this.n == n && View() == Created(n, before, canOpen)
    {
      this.n, len, cache := n, 0, Zeros(n);
      ops := new DailyLogFile(before, canOpen);
    }

    /** Hands the bytes in use to the file. */
    method FlushNoLock()
      requires Valid()
      modifies `len, ops`cacheQueue
      ensures Valid() && View() == LogValues.Flush(old(View())) && Logged(View()) == old(Logged(View()))
    {
      FlushKeeps(View(), n);
      if len > 0 {
        ops.Flush(cache[..len]);
        len := 0;
      }
    }

    /** Room for `size` bytes, behind everything logged so far. */
    method MarkUsed(size: nat) returns (at: nat)
      requires Valid()
      modifies `len, `cache, ops`cacheQueue
      ensures Valid() && View() == LogValues.MarkUsed(old(View()), n, size)
      ensures at + size == len && UpTo(View(), at) == old(Logged(View()))
    {
      MarkUsedKeeps(View(), n, size);
      if size <= n {
        if size + len > n {
          FlushNoLock();
        }
        at := len;
        len := len + size;
      } else {
        FlushNoLock();
        cache := Resize(cache, size);
        at, len := 0, size;
      }
    }

    /** `k` turns of the writer. */
    method WriterTurns(k: nat)
      requires Valid()
      modifies ops`cacheQueue, ops`disk
      ensures Valid() && View() == Turns(old(View()), k)
    {
      var left: nat := k;
      while left > 0
        invariant Valid() && left <= k && Turns(View(), left) == Turns(old(View()), k)
        decreases left
      {
        ops.LooperTurn();
        left := left - 1;
      }
    }

    /** `append`, with the turns the writer takes before the bytes are copied. */
    method Append(data: seq<Byte>, between: nat)
      requires Valid()
      modifies `len, `cache, ops`cacheQueue, ops`disk
      ensures Valid() && View() == LogValues.Step(old(View()), n, LogValues.Append(data, between))
      ensures Logged(View()) == old(Logged(View())) + data
    {
      ghost var s := View();
      StepKeeps(s, n, LogValues.Append(data, between));
      var at := MarkUsed(|data|);
      TurnsKeep(View(), between, 0);
      WriterTurns(between);
      cache := cache[..at] + data + cache[at + |data|..];
    }

    /** Both destructors. */
    method Destroy(turns: nat) returns (ok: bool)
      requires Valid()
      modifies `len, ops`cacheQueue, ops`disk, ops`logging
      ensures ok == LogValues.Destroy(old(View()), turns).Some?
      ensures ok ==> View() == LogValues.Destroy(old(View()), turns).value
    {
      FlushKeeps(View(), n);
      FlushNoLock();
      TurnsKeep(View(), turns, 0);
      WriterTurns(turns);
      ok := ops.Destroy(cache);
    }
  }
}
