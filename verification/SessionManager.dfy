/**
 The session manager of Session.hpp, in place over its two maps, its session
 objects and the wheel timer, proved against `SessionValues`.
 */
module SessionManagers {
  import opened WheelValues
  import opened HashedWheelTimers
  import opened Options
  import opened SessionValues

  /** Milliseconds in a tick of the manager's timer. */
  const TIMER_INTERVAL: nat := 100

  class Session {
    const cid: nat
    const uin: nat
    const sessKey: nat
    var timeout: Option<HashedWheelTimeout<Task>>

    constructor (cid: nat, uin: nat, sessKey: nat)
      ensures this.cid == cid && this.uin == uin && this.sessKey == sessKey && timeout == None
    {
      this.cid, this.uin, this.sessKey := cid, uin, sessKey;
      timeout := None;
    }

    /** Cancels the timeout it has and takes the new one. */
    method ResetTimeout(timer: HashedWheelTimer<Task>, t: HashedWheelTimeout<Task>)
      requires timer.Valid()
      requires timeout.Some? ==>
        timeout.value.id < |timer.handles| && timer.handles[timeout.value.id] == timeout.value
      modifies `timeout, timer`handles, timer`wheel, timer`bag
      modifies (if timeout.Some? then {timeout.value} else {})`state
      ensures timer.Valid() && timer.handles == old(timer.handles)
      ensures timer.bag ==
        if old(timeout).Some? then BagCancel(old(timer.bag), old(timeout).value.id) else old(timer.bag)
      ensures timeout == Some(t)
    {
      if timeout.Some? {
        timer.CancelTimeout(timeout.value);
      }
      SetTimeout(timer, t);
    }

    method SetTimeout(ghost timer: HashedWheelTimer<Task>, t: HashedWheelTimeout<Task>)
      requires timer.Valid()
      modifies `timeout
      ensures timer.Valid() && timeout == Some(t)
    {
      timeout := Some(t);
    }
  }

  /** The maps hold the sessions of `m`, whose timeouts are among `handles`. */
  ghost predicate MapsShow(cidMap: map<nat, Session>, uinMap: seq<(nat, Session)>, m: Mgr,
                           handles: seq<HashedWheelTimeout<Task>>)
    reads cidMap.Values
  {
    && cidMap.Keys == m.cidMap.Keys
    && (forall c :: c in cidMap ==> Shows(cidMap[c], c, m.cidMap[c], handles))
    && |uinMap| == |m.uinMap|
    && (forall i :: 0 <= i < |uinMap| ==> uinMap[i].0 == m.uinMap[i].0 && uinMap[i].1.cid == m.uinMap[i].1)
  }

  /** A session more, with the timeout that is new among the handles. */
  lemma OpenedShow(cidMap: map<nat, Session>, uinMap: seq<(nat, Session)>, m: Mgr,
                   handles: seq<HashedWheelTimeout<Task>>, s: Session, handles': seq<HashedWheelTimeout<Task>>, k: nat)
    requires MapsShow(cidMap, uinMap, m, handles) && handles <= handles' && s.cid !in m.cidMap
    requires |handles| == m.nextId < |handles'| && s.timeout == Some(handles'[m.nextId])
    ensures MapsShow(cidMap[s.cid := s], uinMap + [(s.uin, s)], Heartbeat(m, s.cid, s.uin, k), handles')
  {
    HeartbeatOpens(m, s.cid, s.uin, k);
  }

  lemma HeartbeatOpens(m: Mgr, cid: nat, uin: nat, k: nat)
    requires cid !in m.cidMap
    ensures var m' := Heartbeat(m, cid, uin, k);
      && m'.cidMap == m.cidMap[cid := Sess(uin, m.nextId, m.bag.now)] && m'.uinMap == m.uinMap + [(uin, cid)]
      && m'.nextId == m.nextId + 1
      && m'.bag == BagAdd(m.bag, m.nextId, Task.RemoveSession(cid, uin), k)
  {}

  ghost predicate Shows(s: Session, c: nat, v: Sess, handles: seq<HashedWheelTimeout<Task>>)
    reads s
  {
    s.cid == c && s.uin == v.uin && v.timeout < |handles| && s.timeout == Some(handles[v.timeout])
  }

  class SessionManager {
    var cidMap: map<nat, Session>
    var uinMap: seq<(nat, Session)>
    const idleExpireMs: nat
    const timer: HashedWheelTimer<Task>

    /** The value of the manager, and the heartbeats and ticks that led to it. */
    ghost var mgr: Mgr
    ghost var history: seq<Event>

    /** How many ticks a session lives without a heartbeat. */
    ghost function IdleTicks(): nat {
      ExpireTicks(idleExpireMs, TIMER_INTERVAL)
    }

    ghost predicate Valid()
      reads this, timer, timer.buckets, timer.handles, cidMap.Values
    {
      && idleExpireMs < UINT32
      && timer.msPerTick == TIMER_INTERVAL
      && Agrees(mgr)
      && mgr == Run(history, IdleTicks())
    }

    constructor (expireMS: nat)
      requires expireMS < UINT32
      ensures Valid() && fresh(timer) && fresh(timer.buckets)
      ensures idleExpireMs == expireMS && history == [] && cidMap == map[] && uinMap == []
      ensures expireMS / 100 <= |timer.buckets|
    {
      cidMap, uinMap, idleExpireMs := map[], [], expireMS;
      var t := new HashedWheelTimer<Task>(TIMER_INTERVAL, expireMS / TIMER_INTERVAL);
      timer := t;
      mgr := Mgr(map[], [], Bag(0, []), 0);
      history := [];
    }

    /** In milliseconds, with ticks of 100: a session is live exactly while the
        ticks since its last heartbeat do not exceed the idle time, rounded up. */
    lemma LiveInMilliseconds(cid: nat)
      requires Valid()
      ensures cid in cidMap <==> 0 <= TicksSinceBeat(history, cid) <= (idleExpireMs + 99) / 100
    {
      LiveExactly(history, IdleTicks(), cid);
      ExpireTicksExactly(idleExpireMs, TIMER_INTERVAL);
    }

    method FindSessionByCid(cid: nat) returns (s: Option<Session>)
      ensures s == if cid in cidMap then Some(cidMap[cid]) else None
    {
      if cid in cidMap {
        return Some(cidMap[cid]);
      }
      return None;
    }

    /** Arms a new timeout for the session and cancels the one it had. */
    method TouchSession(s: Session)
      requires timer.Valid() && timer.msPerTick == TIMER_INTERVAL && idleExpireMs < UINT32
      requires s.timeout.Some? ==>
        s.timeout.value.id < |timer.handles| && timer.handles[s.timeout.value.id] == s.timeout.value
      modifies timer`handles, timer`wheel, timer`bag, timer.buckets`timeoutList, s`timeout
      modifies (if s.timeout.Some? then {s.timeout.value} else {})`state
      ensures timer.Valid()
      ensures |timer.handles| == |old(timer.handles)| + 1 && old(timer.handles) <= timer.handles
      ensures s.timeout == Some(timer.handles[|old(timer.handles)|])
      ensures
        var added := BagAdd(old(timer.bag), |old(timer.handles)|, Task.RemoveSession(s.cid, s.uin), IdleTicks());
        timer.bag == if old(s.timeout).Some? then BagCancel(added, old(s.timeout).value.id) else added
    {
      var t := timer.AddTimeout(Task.RemoveSession(s.cid, s.uin), idleExpireMs);
      s.ResetTimeout(timer, t);
    }

    /** The first timeout of a session. */
    method TouchNew(s: Session)
      requires timer.Valid() && timer.msPerTick == TIMER_INTERVAL && idleExpireMs < UINT32 && s.timeout == None
      modifies timer`handles, timer`wheel, timer`bag, timer.buckets`timeoutList, s`timeout
      ensures timer.Valid()
      ensures |timer.handles| == |old(timer.handles)| + 1 && old(timer.handles) <= timer.handles
      ensures s.timeout == Some(timer.handles[|old(timer.handles)|])
      ensures timer.bag == BagAdd(old(timer.bag), |old(timer.handles)|, Task.RemoveSession(s.cid, s.uin), IdleTicks())
    {
      TouchSession(s);
    }

    /** Keeps the ghost state up to date. */
    ghost method Record(m: Mgr, e: Event)
      requires Agrees(m)
      modifies `mgr, `history
      ensures Agrees(m)
      ensures mgr == m && history == old(history) + [e]
    {
      mgr, history := m, history + [e];
    }

    /** A new session in both maps. */
    method AddSession(cid: nat, uin: nat, sessKey: nat) returns (s: Session)
      requires timer.Valid()
      modifies `cidMap, `uinMap
      ensures timer.Valid() && fresh(s) && s.cid == cid && s.uin == uin && s.sessKey == sessKey && s.timeout == None
      ensures cidMap == old(cidMap)[cid := s] && uinMap == old(uinMap) + [(uin, s)]
    {
      s := new Session(cid, uin, sessKey);
      cidMap := cidMap[s.cid := s];
      uinMap := uinMap + [(s.uin, s)];
    }

    /** The state agrees with the value `m`. */
    ghost predicate Agrees(m: Mgr)
      reads this, timer, timer.buckets, timer.handles, cidMap.Values
    {
      && timer.Valid() && timer.bag == m.bag && |timer.handles| == m.nextId
      && MapsShow(cidMap, uinMap, m, timer.handles)
    }

    method TouchFound(s: Session, ghost uin: nat, ghost m: Mgr)
      requires Agrees(m) && s.cid in cidMap && s == cidMap[s.cid]
      requires timer.msPerTick == TIMER_INTERVAL && idleExpireMs < UINT32
      modifies timer`handles, timer`wheel, timer`bag, timer.buckets`timeoutList, timer.handles`state, s`timeout
      ensures Agrees(Heartbeat(m, s.cid, uin, IdleTicks()))
    {
      TouchSession(s);
    }

    method OpenSession(cid: nat, uin: nat, sessKey: nat, ghost m: Mgr)
      requires Agrees(m) && cid !in cidMap
      requires timer.msPerTick == TIMER_INTERVAL && idleExpireMs < UINT32
      modifies `cidMap, `uinMap, timer`handles, timer`wheel, timer`bag, timer.buckets`timeoutList
      ensures Agrees(Heartbeat(m, cid, uin, IdleTicks()))
      ensures cid in cidMap && cidMap == old(cidMap)[cid := cidMap[cid]] && cidMap[cid].sessKey == sessKey
    {
      var s := AddSession(cid, uin, sessKey);
      ghost var handles, sessions, users := timer.handles, old(cidMap), old(uinMap);
      assert MapsShow(sessions, users, m, handles);
      TouchNew(s);
      OpenedShow(sessions, users, m, handles, s, timer.handles, IdleTicks());
      HeartbeatOpens(m, cid, uin, IdleTicks());
    }

    /** Touches the session of the id, or opens one with the key. */
    method TouchOrOpen(cid: nat, uin: nat, sessKey: nat, ghost m: Mgr)
      requires Agrees(m) && timer.msPerTick == TIMER_INTERVAL && idleExpireMs < UINT32
      modifies `cidMap, `uinMap, timer`handles, timer`wheel, timer`bag, timer.buckets`timeoutList, timer.handles`state
      modifies cidMap.Values`timeout
      ensures Agrees(Heartbeat(m, cid, uin, IdleTicks()))
      ensures cid in old(cidMap) ==> cidMap == old(cidMap)
      ensures cid !in old(cidMap) ==>
        cid in cidMap && cidMap == old(cidMap)[cid := cidMap[cid]] && cidMap[cid].sessKey == sessKey
    {
      var found := FindSessionByCid(cid);
      if found.Some? {
        TouchFound(found.value, uin, m);
      } else {
        OpenSession(cid, uin, sessKey, m);
      }
    }

    /** `handlerHeartbeatReq`: the session of the peer is touched, or opened with
        the key; all other sessions stay. */
    method HandleHeartbeat(ip: nat, port: nat, uin: nat, sessKey: nat)
      requires Valid() && port < 0x1_0000
      modifies this, timer`handles, timer`wheel, timer`bag, timer.buckets`timeoutList, timer.handles`state
      modifies cidMap.Values`timeout
      ensures Valid()
      ensures history == old(history) + [Beat(GenConnectId(ip, port), uin)]
      ensures GenConnectId(ip, port) in old(cidMap) ==> cidMap == old(cidMap)
      ensures var cid := GenConnectId(ip, port);
        cid !in old(cidMap) ==>
          cid in cidMap && cidMap == old(cidMap)[cid := cidMap[cid]] && cidMap[cid].sessKey == sessKey
    {
      var cid := GenConnectId(ip, port);
      RunAppend(history, Beat(cid, uin), IdleTicks());
      TouchOrOpen(cid, uin, sessKey, mgr);
      Record(Heartbeat(mgr, cid, uin, IdleTicks()), Beat(cid, uin));
    }

    /** `removeSession`: out of the connections, and its user out of the users. */
    method RemoveSession(t: Task, ghost m: Mgr)
      requires Agrees(m)
      modifies `cidMap, `uinMap
      ensures Agrees(Remove(m, t)) && cidMap.Values <= old(cidMap.Values)
    {
      EraseAgrees(uinMap, m.uinMap, t.uin);
      EraseSessions(t);
    }

    method EraseSessions(t: Task)
      requires timer.Valid()
      modifies `cidMap, `uinMap
      ensures timer.Valid()
      ensures cidMap == old(cidMap) - {t.cid} && uinMap == EraseUin(old(uinMap), t.uin)
    {
      cidMap := cidMap - {t.cid};
      uinMap := EraseUin(uinMap, t.uin);
    }

    /** The timer's tick, without the removals. */
    method TickTimer(ghost m: Mgr) returns (tasks: seq<Task>)
      requires Agrees(m)
      modifies timer`ticked, timer`handles, timer`wheel, timer`bag
      modifies timer.buckets`timeoutList, timer.handles`state, timer.handles`remainingRounds
      ensures Agrees(m.(bag := BagTick(m.bag).0))
      ensures tasks == ArmedTasks(BagTick(m.bag).1)
    {
      tasks := timer.Tick();
    }

    /** One tick of the timer: each task it runs removes its session. */
    method HandleTick()
      requires Valid()
      modifies this, timer`ticked, timer`handles, timer`wheel, timer`bag
      modifies timer.buckets`timeoutList, timer.handles`state, timer.handles`remainingRounds
      ensures Valid()
      ensures history == old(history) + [Elapse]
    {
      RunAppend(history, Elapse, IdleTicks());
      ghost var fired, m := BagTick(mgr.bag).1, mgr.(bag := BagTick(mgr.bag).0);
      var tasks := TickTimer(mgr);
      var i := 0;
      while i < |tasks|
        invariant i <= |tasks| && Agrees(m) && tasks[i..] == ArmedTasks(fired)
        invariant RemoveAll(m, fired) == TimerTick(mgr)
        invariant mgr == old(mgr) && history == old(history)
      {
        assert tasks[i..][1..] == tasks[i + 1..];
        RemoveSession(tasks[i], m);
        m, fired := Remove(m, fired[0].task), fired[1..];
        i := i + 1;
      }
      Record(m, Elapse);
    }
  }

  lemma {:induction false} EraseAgrees(s: seq<(nat, Session)>, v: seq<(nat, nat)>, uin: nat)
    requires |s| == |v| && forall i :: 0 <= i < |s| ==> s[i].0 == v[i].0 && s[i].1.cid == v[i].1
    ensures |EraseUin(s, uin)| == |EraseUin(v, uin)|
    ensures forall i :: 0 <= i < |EraseUin(s, uin)| ==>
      EraseUin(s, uin)[i].0 == EraseUin(v, uin)[i].0 && EraseUin(s, uin)[i].1.cid == EraseUin(v, uin)[i].1
  {
    if s != [] {
      EraseAgrees(s[1..], v[1..], uin);
    }
  }
}
