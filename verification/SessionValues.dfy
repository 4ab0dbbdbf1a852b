/**
 The session manager of Session.hpp as a value, on top of the bag of deadlines
 that the wheel stands for. A time is a number of ticks.
 */
module SessionValues {
  import opened WheelValues
  import opened WheelRefinement

  /** The bound call `removeSession(session)`: all it uses of the session. */
  datatype Task = RemoveSession(cid: nat, uin: nat)

  /** A live session: its user, the number of its timeout, its last touch. */
  datatype Sess = Sess(uin: nat, timeout: nat, touched: nat)

  /** `uinMap` lists pairs of user and connection id, in insertion order. */
  datatype Mgr = Mgr(cidMap: map<nat, Sess>, uinMap: seq<(nat, nat)>, bag: Bag<Task>, nextId: nat)

  // ----- the operations -----

  /** The connection id of a peer: `(ip << 32) | port`. */
  function GenConnectId(ip: nat, port: nat): nat
    requires port < 0x1_0000
  {
    ip * 0x1_0000_0000 + port
  }

  lemma ConnectIdsDiffer(ip: nat, port: nat, ip': nat, port': nat)
    requires port < 0x1_0000 && port' < 0x1_0000
    ensures GenConnectId(ip, port) == GenConnectId(ip', port') <==> ip == ip' && port == port'
  {}

  /** `touchSession`: a new timeout, after which the old one is cancelled. */
  /** The id holds the address above the 32 bits that hold the port. */
  lemma ConnectIdParts(ip: nat, port: nat)
    requires port < 0x1_0000
    ensures GenConnectId(ip, port) / 0x1_0000_0000 == ip && GenConnectId(ip, port) % 0x1_0000_0000 == port
  {}

  function Touch(m: Mgr, cid: nat, uin: nat, old_: seq<nat>, k: nat): Mgr {
    var added := BagAdd(m.bag, m.nextId, RemoveSession(cid, uin), k);
    m.(cidMap := m.cidMap[cid := Sess(uin, m.nextId, m.bag.now)],
       bag := if old_ == [] then added else BagCancel(added, old_[0]),
       nextId := m.nextId + 1)
  }

  /** `handlerHeartbeatReq` */
  function Heartbeat(m: Mgr, cid: nat, uin: nat, k: nat): Mgr {
    if cid in m.cidMap then
      Touch(m, cid, m.cidMap[cid].uin, [m.cidMap[cid].timeout], k)
    else
      Touch(m.(uinMap := m.uinMap + [(uin, cid)]), cid, uin, [], k)
  }

  /** `multimap::erase(uin)`: drops every pair with that user. */
  function EraseUin<V>(s: seq<(nat, V)>, uin: nat): seq<(nat, V)> {
    if s == [] then []
    else if s[0].0 == uin then EraseUin(s[1..], uin)
    else [s[0]] + EraseUin(s[1..], uin)
  }

  function Remove(m: Mgr, t: Task): Mgr {
    m.(cidMap := m.cidMap - {t.cid}, uinMap := EraseUin(m.uinMap, t.uin))
  }

  function RemoveAll(m: Mgr, fired: seq<Armed<Task>>): Mgr
    decreases fired
  {
    if fired == [] then m else RemoveAll(Remove(m, fired[0].task), fired[1..])
  }

  /** A tick of the timer, and the removals it runs. */
  function TimerTick(m: Mgr): Mgr {
    var (bag, fired) := BagTick(m.bag);
    RemoveAll(m.(bag := bag), fired)
  }

  // ----- the invariant -----

  /** The armed timeouts that would remove connection `cid`. */
  function OfCid(s: seq<Armed<Task>>, cid: nat): seq<Armed<Task>> {
    if s == [] then []
    else if s[0].task.cid == cid then [s[0]] + OfCid(s[1..], cid)
    else OfCid(s[1..], cid)
  }

  /** The one timeout a live session has. */
  function TimeoutOf(cid: nat, s: Sess, k: nat): Armed<Task> {
    Armed(s.timeout, RemoveSession(cid, s.uin), s.touched + k)
  }

  predicate IncreasingIds(s: seq<Armed<Task>>, next: nat) {
    && (forall i, j :: 0 <= i < j < |s| ==> s[i].id < s[j].id)
    && (forall i :: 0 <= i < |s| ==> s[i].id < next)
  }

  /** Each live session has exactly one armed timeout, due `k` ticks after its
      last touch; no other timeout is armed; and the users' map lists live
      sessions only, under their own user. */
  ghost predicate MgrOk(m: Mgr, k: nat) {
    && NoneOverdue(m.bag.armed, m.bag.now)
    && IncreasingIds(m.bag.armed, m.nextId)
    && (forall c: nat :: CidOk(m, k, c))
    && UinMapOk(m)
  }

  ghost predicate CidOk(m: Mgr, k: nat, c: nat) {
    OfCid(m.bag.armed, c) == if c in m.cidMap then [TimeoutOf(c, m.cidMap[c], k)] else []
  }

  ghost predicate UinMapOk(m: Mgr) {
    forall i :: 0 <= i < |m.uinMap| ==>
      m.uinMap[i].1 in m.cidMap && m.cidMap[m.uinMap[i].1].uin == m.uinMap[i].0
  }

  // ----- filters -----

  lemma {:induction false} OfCidAppend(s: seq<Armed<Task>>, a: Armed<Task>, c: nat)
    ensures OfCid(s + [a], c) == if a.task.cid == c then OfCid(s, c) + [a] else OfCid(s, c)
  {
    if s == [] {
      assert s + [a] == [a];
    } else {
      OfCidAppend(s[1..], a, c);
      assert (s + [a])[1..] == s[1..] + [a];
    }
  }

  lemma {:induction false} OfCidWithout(s: seq<Armed<Task>>, id: nat, c: nat)
    ensures OfCid(Without(s, id), c) == Without(OfCid(s, c), id)
  {
    if s != [] {
      OfCidWithout(s[1..], id, c);
    }
  }

  lemma {:induction false} OfCidNotDue(s: seq<Armed<Task>>, now: nat, c: nat)
    ensures OfCid(NotDue(s, now), c) == NotDue(OfCid(s, c), now)
    ensures OfCid(Due(s, now), c) == Due(OfCid(s, c), now)
  {
    if s != [] {
      OfCidNotDue(s[1..], now, c);
    }
  }

  lemma {:induction false} OfCidElement(s: seq<Armed<Task>>, i: nat)
    requires i < |s|
    ensures s[i] in OfCid(s, s[i].task.cid)
  {
    if i > 0 {
      OfCidElement(s[1..], i - 1);
    }
  }

  lemma {:induction false} OfCidFrom(s: seq<Armed<Task>>, c: nat)
    ensures forall a :: a in OfCid(s, c) ==> a.task.cid == c && a in s
  {
    if s != [] {
      OfCidFrom(s[1..], c);
    }
  }

  lemma {:induction false} WithoutKeepsOrder(s: seq<Armed<Task>>, id: nat, next: nat, low: nat)
    requires IncreasingIds(s, next) && forall i :: 0 <= i < |s| ==> s[i].id >= low
    ensures IncreasingIds(Without(s, id), next)
    ensures forall i :: 0 <= i < |Without(s, id)| ==> Without(s, id)[i].id >= low
  {
    if s != [] {
      WithoutKeepsOrder(s[1..], id, next, s[0].id + 1);
    }
  }

  lemma {:induction false} NotDueKeepsOrder(s: seq<Armed<Task>>, now: nat, next: nat, low: nat)
    requires IncreasingIds(s, next) && forall i :: 0 <= i < |s| ==> s[i].id >= low
    ensures IncreasingIds(NotDue(s, now), next)
    ensures forall i :: 0 <= i < |NotDue(s, now)| ==> NotDue(s, now)[i].id >= low
  {
    if s != [] {
      NotDueKeepsOrder(s[1..], now, next, s[0].id + 1);
    }
  }

  /** Timeouts of different sessions have different numbers. */
  lemma IdsTellCids(s: seq<Armed<Task>>, next: nat, a: Armed<Task>, b: Armed<Task>)
    requires IncreasingIds(s, next) && a in s && b in s && a.id == b.id
    ensures a == b
  {}

  // ----- a heartbeat keeps the invariant -----

  lemma {:induction false} TouchNewOk(m: Mgr, cid: nat, uin: nat, k: nat)
    requires MgrOk(m, k) && cid !in m.cidMap
    ensures MgrOk(Heartbeat(m, cid, uin, k), k)
  {
    var m' := Heartbeat(m, cid, uin, k);
    var a := Armed(m.nextId, RemoveSession(cid, uin), m.bag.now + k);
    assert m'.bag.armed == m.bag.armed + [a];
    forall c: nat
      ensures CidOk(m', k, c)
    {
      assert CidOk(m, k, c);
      OfCidAppend(m.bag.armed, a, c);
    }
  }

  lemma {:induction false} TouchOldCid(m: Mgr, cid: nat, uin: nat, k: nat, c: nat)
    requires MgrOk(m, k) && cid in m.cidMap
    ensures CidOk(Heartbeat(m, cid, uin, k), k, c)
  {
    var s := m.cidMap[cid];
    var a := Armed(m.nextId, RemoveSession(cid, s.uin), m.bag.now + k);
    var t := TimeoutOf(cid, s, k);
    assert CidOk(m, k, cid) && CidOk(m, k, c);
    OfCidAppend(m.bag.armed, a, c);
    OfCidWithout(m.bag.armed + [a], s.timeout, c);
    OfCidFrom(m.bag.armed, cid);
    OfCidFrom(m.bag.armed, c);
    assert t in OfCid(m.bag.armed, cid);
    assert t.id < m.nextId;
    if c == cid {
      assert OfCid(m.bag.armed + [a], c) == [t, a];
      assert [t, a][1..] == [a] && [a][1..] == [];
      assert Without([a], s.timeout) == [a];
      assert Without([t, a], s.timeout) == [a];
    } else if c in m.cidMap {
      var u := TimeoutOf(c, m.cidMap[c], k);
      assert u in OfCid(m.bag.armed, c);
      if u.id == t.id {
        IdsTellCids(m.bag.armed, m.nextId, u, t);
      }
    }
  }

  lemma {:induction false} TouchOldOk(m: Mgr, cid: nat, uin: nat, k: nat)
    requires MgrOk(m, k) && cid in m.cidMap
    ensures MgrOk(Heartbeat(m, cid, uin, k), k)
  {
    var s := m.cidMap[cid];
    var a := Armed(m.nextId, RemoveSession(cid, s.uin), m.bag.now + k);
    var m' := Heartbeat(m, cid, uin, k);
    forall c: nat
      ensures CidOk(m', k, c)
    {
      TouchOldCid(m, cid, uin, k, c);
    }
    WithoutKeepsOrder(m.bag.armed + [a], s.timeout, m'.nextId, 0);
    WithoutNotOverdue(m.bag.armed + [a], s.timeout, m.bag.now);
  }

  // ----- a tick keeps the invariant -----

  /** The sessions that are due in the tick about to be processed. */
  ghost function DueCids(m: Mgr, k: nat): set<nat> {
    set c | c in m.cidMap && m.cidMap[c].touched + k == m.bag.now
  }

  function TaskCids(fired: seq<Armed<Task>>): set<nat> {
    if fired == [] then {} else {fired[0].task.cid} + TaskCids(fired[1..])
  }

  function TaskUins(fired: seq<Armed<Task>>): set<nat> {
    if fired == [] then {} else {fired[0].task.uin} + TaskUins(fired[1..])
  }

  lemma {:induction false} EraseUinOk(s: seq<(nat, nat)>, uin: nat)
    ensures forall p :: p in EraseUin(s, uin) <==> p in s && p.0 != uin
  {
    if s != [] {
      EraseUinOk(s[1..], uin);
    }
  }

  lemma {:induction false} RemoveAllRemoves(m: Mgr, fired: seq<Armed<Task>>)
    ensures RemoveAll(m, fired).cidMap == m.cidMap - TaskCids(fired)
    ensures forall p :: p in RemoveAll(m, fired).uinMap <==> p in m.uinMap && p.0 !in TaskUins(fired)
    ensures RemoveAll(m, fired).bag == m.bag && RemoveAll(m, fired).nextId == m.nextId
    decreases fired
  {
    if fired != [] {
      RemoveAllRemoves(Remove(m, fired[0].task), fired[1..]);
      EraseUinOk(m.uinMap, fired[0].task.uin);
      assert m.cidMap - {fired[0].task.cid} - TaskCids(fired[1..]) == m.cidMap - TaskCids(fired);
    }
  }

  lemma {:induction false} TaskCidsAre(fired: seq<Armed<Task>>, c: nat)
    ensures c in TaskCids(fired) <==> OfCid(fired, c) != []
  {
    if fired != [] {
      TaskCidsAre(fired[1..], c);
    }
  }

  /** A tick removes exactly the sessions that are due in it. */
  lemma {:induction false} TickRemovesDue(m: Mgr, k: nat)
    requires MgrOk(m, k)
    ensures TimerTick(m).cidMap == m.cidMap - DueCids(m, k)
    ensures TaskCids(BagTick(m.bag).1) == DueCids(m, k)
  {
    var fired := BagTick(m.bag).1;
    RemoveAllRemoves(m.(bag := BagTick(m.bag).0), fired);
    forall c: nat
      ensures c in TaskCids(fired) <==> c in DueCids(m, k)
    {
      assert CidOk(m, k, c);
      TaskCidsAre(fired, c);
      OfCidNotDue(m.bag.armed, m.bag.now, c);
    }
  }

  lemma {:induction false} TaskUinsHave(fired: seq<Armed<Task>>, a: Armed<Task>)
    requires a in fired
    ensures a.task.uin in TaskUins(fired)
  {
    if a != fired[0] {
      TaskUinsHave(fired[1..], a);
    }
  }

  /** The users of the sessions that are due are the users erased. */
  lemma {:induction false} DueUins(m: Mgr, k: nat, c: nat)
    requires MgrOk(m, k) && c in DueCids(m, k)
    ensures m.cidMap[c].uin in TaskUins(BagTick(m.bag).1)
  {
    var fired, t := BagTick(m.bag).1, TimeoutOf(c, m.cidMap[c], k);
    assert CidOk(m, k, c);
    OfCidNotDue(m.bag.armed, m.bag.now, c);
    assert t in OfCid(fired, c);
    OfCidFrom(fired, c);
    TaskUinsHave(fired, t);
  }

  lemma {:induction false} TickCid(m: Mgr, k: nat, c: nat)
    requires MgrOk(m, k)
    ensures CidOk(TimerTick(m), k, c)
  {
    assert CidOk(m, k, c);
    TickRemovesDue(m, k);
    RemoveAllRemoves(m.(bag := BagTick(m.bag).0), BagTick(m.bag).1);
    OfCidNotDue(m.bag.armed, m.bag.now, c);
  }

  lemma {:induction false} TickUinMap(m: Mgr, k: nat)
    requires MgrOk(m, k)
    ensures UinMapOk(TimerTick(m))
  {
    var m', fired := TimerTick(m), BagTick(m.bag).1;
    TickRemovesDue(m, k);
    RemoveAllRemoves(m.(bag := BagTick(m.bag).0), fired);
    forall i | 0 <= i < |m'.uinMap|
      ensures m'.uinMap[i].1 in m'.cidMap && m'.cidMap[m'.uinMap[i].1].uin == m'.uinMap[i].0
    {
      var p := m'.uinMap[i];
      assert p in m'.uinMap;
      assert p in m.uinMap && p.0 !in TaskUins(fired);
      if p.1 in DueCids(m, k) {
        DueUins(m, k, p.1);
      }
    }
  }

  lemma {:induction false} TickOk(m: Mgr, k: nat)
    requires MgrOk(m, k)
    ensures MgrOk(TimerTick(m), k)
  {
    RemoveAllRemoves(m.(bag := BagTick(m.bag).0), BagTick(m.bag).1);
    NotDueNotOverdue(m.bag.armed, m.bag.now);
    NotDueKeepsOrder(m.bag.armed, m.bag.now, m.nextId, 0);
    TickUinMap(m, k);
    forall c: nat
      ensures CidOk(TimerTick(m), k, c)
    {
      TickCid(m, k, c);
    }
  }

  // ----- runs of heartbeats and ticks -----

  datatype Event = Beat(cid: nat, uin: nat) | Elapse

  function Step(m: Mgr, e: Event, k: nat): Mgr {
    match e
    case Beat(cid, uin) => Heartbeat(m, cid, uin, k)
    case Elapse => TimerTick(m)
  }

  function Run(es: seq<Event>, k: nat): Mgr {
    if es == [] then Mgr(map[], [], Bag(0, []), 0) else Step(Run(es[..|es| - 1], k), es[|es| - 1], k)
  }

  lemma RunAppend(es: seq<Event>, e: Event, k: nat)
    ensures Run(es + [e], k) == Step(Run(es, k), e, k)
  {
    assert (es + [e])[..|es|] == es;
  }

  /** How many ticks came after the last heartbeat of `cid`; -1 if there is none. */
  function TicksSinceBeat(es: seq<Event>, cid: nat): int {
    if es == [] then -1 else
      var before, last := TicksSinceBeat(es[..|es| - 1], cid), es[|es| - 1];
      if last.Beat? && last.cid == cid then 0
      else if last == Elapse && before >= 0 then before + 1
      else before
  }

  lemma {:induction false} StepOk(m: Mgr, e: Event, k: nat)
    requires MgrOk(m, k)
    ensures MgrOk(Step(m, e, k), k)
  {
    match e
    case Beat(cid, uin) =>
      if cid in m.cidMap {
        TouchOldOk(m, cid, uin, k);
      } else {
        TouchNewOk(m, cid, uin, k);
      }
    case Elapse => TickOk(m, k);
  }

  /** In every state a run can reach, each live session has exactly one armed
      timeout, due `k` ticks after its last touch. */
  lemma {:induction false} RunOk(es: seq<Event>, k: nat)
    ensures MgrOk(Run(es, k), k)
  {
    if es != [] {
      RunOk(es[..|es| - 1], k);
      StepOk(Run(es[..|es| - 1], k), es[|es| - 1], k);
    }
  }

  lemma {:induction false} OneTouch(m: Mgr, e: Event, k: nat, cid: nat)
    requires MgrOk(m, k)
    ensures var m' := Step(m, e, k);
      && m'.bag.now == m.bag.now + (if e == Elapse then 1 else 0)
      && (cid in m'.cidMap <==>
            (e.Beat? && e.cid == cid) || (cid in m.cidMap && (e == Elapse ==> m.cidMap[cid].touched + k != m.bag.now)))
      && (cid in m'.cidMap ==>
            m'.cidMap[cid].touched == if e.Beat? && e.cid == cid then m.bag.now else m.cidMap[cid].touched)
  {
    if e == Elapse {
      TickRemovesDue(m, k);
      RemoveAllRemoves(m.(bag := BagTick(m.bag).0), BagTick(m.bag).1);
    }
  }

  /**
   A session is in `_cidMap` exactly while at most `k` ticks have come after its
   last heartbeat: it is removed by that very tick, and never while it keeps
   being touched in time.
   */
  lemma {:induction false} LiveExactly(es: seq<Event>, k: nat, cid: nat)
    ensures cid in Run(es, k).cidMap <==> 0 <= TicksSinceBeat(es, cid) <= k
    ensures cid in Run(es, k).cidMap ==>
      Run(es, k).cidMap[cid].touched == Run(es, k).bag.now - TicksSinceBeat(es, cid)
  {
    if es != [] {
      var before := es[..|es| - 1];
      LiveExactly(before, k, cid);
      RunOk(before, k);
      OneTouch(Run(before, k), es[|es| - 1], k, cid);
      RunOk(es, k);
      if cid in Run(before, k).cidMap {
        LiveNotOverdue(Run(before, k), k, cid);
      }
    }
  }

  lemma {:induction false} LiveNotOverdue(m: Mgr, k: nat, cid: nat)
    requires MgrOk(m, k) && cid in m.cidMap
    ensures m.cidMap[cid].touched + k >= m.bag.now
  {
    assert CidOk(m, k, cid);
    OfCidFrom(m.bag.armed, cid);
    assert TimeoutOf(cid, m.cidMap[cid], k) in OfCid(m.bag.armed, cid);
  }

  // ----- the users' map -----

  /** Of the sessions that survive a tick, the users' map keeps exactly those
      whose user has no session expiring in it: `erase(uin)` drops them all. */
  lemma {:induction false} TickKeepsUserExactly(m: Mgr, k: nat, uin: nat, cid: nat)
    requires MgrOk(m, k) && (uin, cid) in m.uinMap
    ensures (uin, cid) in TimerTick(m).uinMap <==>
      forall c :: c in DueCids(m, k) ==> m.cidMap[c].uin != uin
  {
    var fired := BagTick(m.bag).1;
    RemoveAllRemoves(m.(bag := BagTick(m.bag).0), fired);
    if uin in TaskUins(fired) {
      var c := UinTaken(m, k, fired, uin);
    } else {
      forall c | c in DueCids(m, k)
        ensures m.cidMap[c].uin != uin
      {
        DueUins(m, k, c);
      }
    }
  }

  /** A session of the user expires in the tick that comes now. */
  ghost predicate UserExpires(m: Mgr, k: nat, uin: nat) {
    exists c :: c in DueCids(m, k) && m.cidMap[c].uin == uin
  }

  /** The session `cid` was opened for the user by event `i` and has been live since. */
  ghost predicate LiveSince(es: seq<Event>, k: nat, cid: nat, uin: nat, i: nat) {
    && i < |es| && es[i] == Beat(cid, uin)
    && cid !in Run(es[..i], k).cidMap
    && forall j :: i < j <= |es| ==> cid in Run(es[..j], k).cidMap
  }

  /** Event `j` is a tick in which a session of the user expires. */
  ghost predicate ExpiresAt(es: seq<Event>, k: nat, uin: nat, j: nat)
    requires j < |es|
  {
    es[j] == Elapse && UserExpires(Run(es[..j], k), k, uin)
  }

  /** No session of the user has expired in the events after `i`. */
  ghost predicate NoneExpired(es: seq<Event>, k: nat, uin: nat, i: nat) {
    forall j :: i < j < |es| ==> !ExpiresAt(es, k, uin, j)
  }

  lemma StepKeepsUser(m: Mgr, e: Event, k: nat, uin: nat, cid: nat)
    requires MgrOk(m, k) && cid in m.cidMap
    ensures (uin, cid) in Step(m, e, k).uinMap <==>
      (uin, cid) in m.uinMap && (e == Elapse ==> !UserExpires(m, k, uin))
  {
    if e == Elapse {
      RemoveAllRemoves(m.(bag := BagTick(m.bag).0), BagTick(m.bag).1);
      if (uin, cid) in m.uinMap {
        TickKeepsUserExactly(m, k, uin, cid);
      }
    }
  }

  lemma SamePrefix(es: seq<Event>, j: nat)
    requires j < |es|
    ensures es[..|es| - 1][..j] == es[..j]
  {}

  lemma LiveSinceBefore(es: seq<Event>, k: nat, cid: nat, uin: nat, i: nat)
    requires LiveSince(es, k, cid, uin, i) && i < |es| - 1
    ensures LiveSince(es[..|es| - 1], k, cid, uin, i)
  {
    var before := es[..|es| - 1];
    SamePrefix(es, i);
    forall j: nat | i < j <= |before|
      ensures cid in Run(before[..j], k).cidMap
    {
      SamePrefix(es, j);
    }
  }

  lemma NoneExpiredBefore(es: seq<Event>, k: nat, uin: nat, i: nat)
    requires i < |es| - 1
    ensures NoneExpired(es, k, uin, i)
      <==> (NoneExpired(es[..|es| - 1], k, uin, i) && !ExpiresAt(es, k, uin, |es| - 1))
  {
    var before := es[..|es| - 1];
    forall j: nat | j < |before|
      ensures ExpiresAt(before, k, uin, j) <==> ExpiresAt(es, k, uin, j)
    {
      SamePrefix(es, j);
    }
    if NoneExpired(before, k, uin, i) && !ExpiresAt(es, k, uin, |es| - 1) {
      forall j: nat | i < j < |es|
        ensures !ExpiresAt(es, k, uin, j)
      {
        if j < |before| {
          assert !ExpiresAt(before, k, uin, j);
        }
      }
    } else if NoneExpired(es, k, uin, i) {
      forall j: nat | i < j < |before|
        ensures !ExpiresAt(before, k, uin, j)
      {
        assert !ExpiresAt(es, k, uin, j);
      }
    }
  }

  /** Over every run: a live session is found by its user exactly when no session
      of that user has expired since it was opened. */
  lemma {:induction false} UserFoundExactly(es: seq<Event>, k: nat, cid: nat, uin: nat, i: nat)
    requires LiveSince(es, k, cid, uin, i)
    ensures (uin, cid) in Run(es, k).uinMap <==> NoneExpired(es, k, uin, i)
    decreases |es|
  {
    var before := es[..|es| - 1];
    RunOk(before, k);
    if i < |es| - 1 {
      LiveSinceBefore(es, k, cid, uin, i);
      NoneExpiredBefore(es, k, uin, i);
      UserFoundExactly(before, k, cid, uin, i);
      StepKeepsUser(Run(before, k), es[|es| - 1], k, uin, cid);
    } else {
      var m := Run(before, k);
      assert Run(es, k).uinMap == m.uinMap + [(uin, cid)];
    }
  }

  /** Each pair is in the users' map once. */
  predicate Once(s: seq<(nat, nat)>) {
    forall i, j :: 0 <= i < j < |s| ==> s[i] != s[j]
  }

  lemma {:induction false} EraseUinOnce(s: seq<(nat, nat)>, uin: nat)
    requires Once(s)
    ensures Once(EraseUin(s, uin))
  {
    if s != [] {
      EraseUinOnce(s[1..], uin);
      EraseUinOk(s[1..], uin);
      assert s[0] !in s[1..];
    }
  }

  lemma {:induction false} RemoveAllOnce(m: Mgr, fired: seq<Armed<Task>>)
    requires Once(m.uinMap)
    ensures Once(RemoveAll(m, fired).uinMap)
    decreases fired
  {
    if fired != [] {
      EraseUinOnce(m.uinMap, fired[0].task.uin);
      RemoveAllOnce(Remove(m, fired[0].task), fired[1..]);
    }
  }

  /** Over every run a session is listed under its user at most once. */
  lemma {:induction false} UsersListedOnce(es: seq<Event>, k: nat)
    ensures Once(Run(es, k).uinMap)
    decreases |es|
  {
    if es != [] {
      var before, e := es[..|es| - 1], es[|es| - 1];
      var m := Run(before, k);
      UsersListedOnce(before, k);
      RunOk(before, k);
      if e == Elapse {
        RemoveAllOnce(m.(bag := BagTick(m.bag).0), BagTick(m.bag).1);
      } else if e.cid !in m.cidMap {
        assert Run(es, k).uinMap == m.uinMap + [(e.uin, e.cid)];
      }
    }
  }

  lemma {:induction false} UinTaken(m: Mgr, k: nat, fired: seq<Armed<Task>>, uin: nat) returns (c: nat)
    requires MgrOk(m, k) && uin in TaskUins(fired)
    requires forall a :: a in fired ==> a in Due(m.bag.armed, m.bag.now)
    ensures c in DueCids(m, k) && m.cidMap[c].uin == uin
  {
    var a := fired[0];
    if a.task.uin == uin {
      c := a.task.cid;
      assert a in Due(m.bag.armed, m.bag.now);
      var j :| 0 <= j < |Due(m.bag.armed, m.bag.now)| && Due(m.bag.armed, m.bag.now)[j] == a;
      OfCidElement(Due(m.bag.armed, m.bag.now), j);
      OfCidNotDue(m.bag.armed, m.bag.now, c);
      assert CidOk(m, k, c);
    } else {
      c := UinTaken(m, k, fired[1..], uin);
    }
  }

  lemma NoneDueYet(a: Armed<Task>, now: nat)
    requires a.deadline != now
    ensures Due([a], now) == [] && NotDue([a], now) == [a]
  {
    assert [a][1..] == [];
  }

  lemma DuePair(a: Armed<Task>, b: Armed<Task>, now: nat)
    requires a.deadline == now != b.deadline
    ensures Due([a, b], now) == [a] && NotDue([a, b], now) == [b]
  {
    assert [a, b][1..] == [b];
    NoneDueYet(b, now);
  }

  lemma ErasePair(uin: nat, c: nat, d: nat)
    ensures EraseUin([(uin, c), (uin, d)], uin) == []
  {
    assert [(uin, c), (uin, d)][1..] == [(uin, d)] && [(uin, d)][1..] == [];
    assert EraseUin([(uin, d)], uin) == [];
  }

  lemma RemoveOne(m: Mgr, a: Armed<Task>)
    ensures RemoveAll(m, [a]) == Remove(m, a.task)
  {
    assert [a][1..] == [];
  }

  /** Two sessions of user 7, of which the first expires. */
  lemma FirstExpires(m: Mgr, a: Armed<Task>, b: Armed<Task>)
    requires a == Armed(0, RemoveSession(1, 7), 1) && b == Armed(1, RemoveSession(2, 7), 2)
    requires m == Mgr(map[1 := Sess(7, 0, 0), 2 := Sess(7, 1, 1)], [(7, 1), (7, 2)], Bag(1, [a, b]), 2)
    ensures TimerTick(m).cidMap == map[2 := Sess(7, 1, 1)] && TimerTick(m).uinMap == []
  {
    DuePair(a, b, 1);
    ErasePair(7, 1, 2);
    RemoveOne(m.(bag := BagTick(m.bag).0), a);
  }

  lemma OneMoreEvent(es: seq<Event>, before: seq<Event>, e: Event, k: nat)
    requires es == before + [e]
    ensures Run(es, k) == Step(Run(before, k), e, k)
  {
    RunAppend(before, e, k);
  }

  lemma FirstOpened()
    ensures Run([Beat(1, 7)], 1)
      == Mgr(map[1 := Sess(7, 0, 0)], [(7, 1)], Bag(0, [Armed(0, RemoveSession(1, 7), 1)]), 1)
  {
    OneMoreEvent([Beat(1, 7)], [], Beat(1, 7), 1);
  }

  lemma FirstWaits()
    ensures Run([Beat(1, 7), Elapse], 1)
      == Mgr(map[1 := Sess(7, 0, 0)], [(7, 1)], Bag(1, [Armed(0, RemoveSession(1, 7), 1)]), 1)
  {
    FirstOpened();
    OneMoreEvent([Beat(1, 7), Elapse], [Beat(1, 7)], Elapse, 1);
    NoneDueYet(Armed(0, RemoveSession(1, 7), 1), 0);
  }

  lemma SecondOpened()
    ensures Run([Beat(1, 7), Elapse, Beat(2, 7)], 1)
      == Mgr(map[1 := Sess(7, 0, 0), 2 := Sess(7, 1, 1)], [(7, 1), (7, 2)],
             Bag(1, [Armed(0, RemoveSession(1, 7), 1), Armed(1, RemoveSession(2, 7), 2)]), 2)
  {
    FirstWaits();
    OneMoreEvent([Beat(1, 7), Elapse, Beat(2, 7)], [Beat(1, 7), Elapse], Beat(2, 7), 1);
    var m := Run([Beat(1, 7), Elapse], 1);
    var b := Armed(1, RemoveSession(2, 7), 2);
    assert m.uinMap + [(7, 2)] == [(7, 1), (7, 2)];
    assert m.bag.armed + [b] == [m.bag.armed[0], b];
    assert m.cidMap[2 := Sess(7, 1, 1)] == map[1 := Sess(7, 0, 0), 2 := Sess(7, 1, 1)];
  }

  /** So a live session can be missing from the users' map: user 7 connects
      twice, a tick apart, and the first session expires. */
  lemma LiveSessionLosesUser()
    ensures var m := Run([Beat(1, 7), Elapse, Beat(2, 7), Elapse], 1);
      2 in m.cidMap && m.cidMap[2].uin == 7 && m.uinMap == []
  {
    SecondOpened();
    var before := [Beat(1, 7), Elapse, Beat(2, 7)];
    OneMoreEvent([Beat(1, 7), Elapse, Beat(2, 7), Elapse], before, Elapse, 1);
    FirstExpires(Run(before, 1), Armed(0, RemoveSession(1, 7), 1), Armed(1, RemoveSession(2, 7), 2));
  }
}
