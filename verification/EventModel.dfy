/**
 The value-level model of the event bookkeeping of src/lu_event.c and src/lu_evmap.c: one base,
 the events registered with it, the active queues, the per-fd and per-signal lists, the
 counters and the interest the backend was told about.  What the C code learns from outside
 (an allocation, a backend call) is a parameter of the step.
 */
module EventModel {

  type Id = nat

  datatype Interest = Read | Write | Closed

  datatype What = TimedOut | Readable | Writable | Signalled | Hangup

  /** An event, or (`init` false) a bare callback that may only be activated and cancelled. */
  datatype Ev = Ev(
    fd: int, interests: set<Interest>, signal: bool, edge: bool, internal: bool, init: bool,
    pri: nat, inserted: bool, active: bool, res: set<What>, ncalls: int)

  datatype IoSlot = IoSlot(events: seq<Id>, nread: nat, nwrite: nat, nclose: nat)

  datatype Option<T> = None | Some(value: T)

  datatype Base = Base(
    evs: map<Id, Ev>,
    queues: seq<seq<Id>>,
    io: seq<Option<IoSlot>>,
    sigs: seq<Option<seq<Id>>>,
    count: int, countMax: int, activeCount: int, activeMax: int,
    running: int, continue_: bool,
    ioMask: map<int, set<Interest>>, sigMask: set<int>)

  /** What the outside world answers during one call. */
  datatype Env = Env(heapOk: bool, growOk: bool, slotOk: bool, backendOk: bool, debugMode: bool)

  const INT_MAX := 0x7fffffff
  const POINTER_SIZE := 8
  const NSIG := 65
  const MAX_EVENTS := 0xffff

  function Max(a: int, b: int): int {
    if a > b then a else b
  }

  function Remove(s: seq<Id>, x: Id): seq<Id> {
    if s == [] then [] else if s[0] == x then s[1..] else [s[0]] + Remove(s[1..], x)
  }

  // ---------------------------------------------------------------------------------------
  // The counters and the active queues
  // ---------------------------------------------------------------------------------------

  function Incr(b: Base, e: Ev): Base {
    var n := if e.internal then b.count else b.count + 1;
    b.(count := n, countMax := Max(b.countMax, n))
  }

  function Decr(b: Base, e: Ev): Base {
    b.(count := if e.internal then b.count else b.count - 1)
  }

  function InsertActive(b: Base, id: Id): Base
    requires id in b.evs && b.evs[id].pri < |b.queues|
  {
    var e := b.evs[id];
    if e.active then b
    else
      var n := b.activeCount + 1;
      Incr(b, e).(
        evs := b.evs[id := e.(active := true)],
        activeCount := n, activeMax := Max(b.activeMax, n),
        queues := b.queues[e.pri := b.queues[e.pri] + [id]])
  }

  function RemoveActive(b: Base, id: Id): Base
    requires id in b.evs && b.evs[id].pri < |b.queues|
  {
    var e := b.evs[id];
    if !e.active then b
    else
      Decr(b, e).(
        evs := b.evs[id := e.(active := false)],
        activeCount := b.activeCount - 1,
        queues := b.queues[e.pri := Remove(b.queues[e.pri], id)])
  }

  function InsertInserted(b: Base, id: Id): Base
    requires id in b.evs
  {
    var e := b.evs[id];
    if e.inserted then b
    else Incr(b, e).(evs := b.evs[id := e.(inserted := true)])
  }

  function RemoveInserted(b: Base, id: Id): Base
    requires id in b.evs
  {
    var e := b.evs[id];
    if !e.inserted then b
    else Decr(b, e).(evs := b.evs[id := e.(inserted := false)])
  }

  // ---------------------------------------------------------------------------------------
  // The fd and signal maps
  // ---------------------------------------------------------------------------------------

  function Doubled(n: nat, slot: nat): (r: nat)
    requires 0 < n
    ensures slot < r && n <= r
    decreases slot - n
  {
    if slot < n then n else Doubled(2 * n, slot)
  }

  /** The new number of entries; None when the map cannot grow. */
  function MakeSpace(n: nat, slot: nat, growOk: bool): (r: Option<nat>)
    ensures r.Some? ==> n <= r.value && slot < r.value
    ensures slot < n ==> r == Some(n)
  {
    if slot < n then Some(n)
    else if slot > INT_MAX / 2 then None
    else
      var m := Doubled(if n == 0 then 32 else n, slot);
      if m > INT_MAX / POINTER_SIZE || !growOk then None else Some(m)
  }

  function Extend<T>(s: seq<Option<T>>, n: nat): (r: seq<Option<T>>)
    requires |s| <= n
    ensures |r| == n && r[..|s|] == s
    ensures forall i :: |s| <= i < n ==> r[i] == None
  {
    s + seq(n - |s|, i => None)
  }

  function One(b: bool): nat {
    if b then 1 else 0
  }

  /** The interests with a non-zero count: the argument `old` of the backend calls. */
  function OldMask(s: IoSlot): set<Interest> {
    (if s.nread > 0 then {Read} else {}) + (if s.nwrite > 0 then {Write} else {})
      + (if s.nclose > 0 then {Closed} else {})
  }

  function MaskAt(b: Base, fd: int): set<Interest> {
    if fd in b.ioMask then b.ioMask[fd] else {}
  }

  /** lu_evmap_io_add_: -1 on failure, 1 if the backend was told, 0 otherwise. */
  function IoAdd(b: Base, id: Id, env: Env): (Base, int)
    requires id in b.evs
  {
    var e := b.evs[id];
    if e.fd < 0 then (b, 0)
    else match MakeSpace(|b.io|, e.fd, env.growOk)
      case None => (b, -1)
      case Some(n) =>
        var grown := Extend(b.io, n);
        if grown[e.fd].None? && !env.slotOk then (b.(io := grown), -1)
        else
          var s := if grown[e.fd].None? then IoSlot([], 0, 0, 0) else grown[e.fd].value;
          var b1 := b.(io := grown[e.fd := Some(s)]);
          var nread := s.nread + One(Read in e.interests);
          var nwrite := s.nwrite + One(Write in e.interests);
          var nclose := s.nclose + One(Closed in e.interests);
          var told := OldMask(IoSlot([], nread, nwrite, nclose)) - OldMask(s);
          if nread > MAX_EVENTS || nwrite > MAX_EVENTS || nclose > MAX_EVENTS then (b1, -1)
          else if env.debugMode && s.events != [] && s.events[0] in b.evs && b.evs[s.events[0]].edge != e.edge
              then (b1, -1)
          else if told != {} && !env.backendOk then (b1, -1)
          else
            var s' := IoSlot([id] + s.events, nread, nwrite, nclose);
            var mask := if told == {} then b.ioMask else b.ioMask[e.fd := MaskAt(b, e.fd) + told];
            (b1.(io := grown[e.fd := Some(s')], ioMask := mask), if told != {} then 1 else 0)
  }

  function Less(n: nat, wants: bool): nat {
    if wants && n > 0 then n - 1 else n
  }

  /** lu_evmap_io_del_: the event leaves the list even when the backend refuses. */
  function IoDel(b: Base, id: Id, backendOk: bool): (Base, int)
    requires id in b.evs
  {
    var e := b.evs[id];
    if e.fd < 0 then (b, 0)
    else if e.fd >= |b.io| || b.io[e.fd].None? then (b, -1)
    else
      var s := b.io[e.fd].value;
      var s' := IoSlot(Remove(s.events, id), Less(s.nread, Read in e.interests),
          Less(s.nwrite, Write in e.interests), Less(s.nclose, Closed in e.interests));
      var untold := OldMask(s) - OldMask(s');
      var mask := if untold != {} && backendOk then b.ioMask[e.fd := MaskAt(b, e.fd) - untold] else b.ioMask;
      (b.(io := b.io[e.fd := Some(s')], ioMask := mask), if untold == {} then 0 else if backendOk then 1 else -1)
  }

  function SignalAdd(b: Base, id: Id, env: Env): (Base, int)
    requires id in b.evs
  {
    var sig := b.evs[id].fd;
    if sig < 0 || sig >= NSIG then (b, -1)
    else match MakeSpace(|b.sigs|, sig, env.growOk)
      case None => (b, -1)
      case Some(n) =>
        var grown := Extend(b.sigs, n);
        if grown[sig].None? && !env.slotOk then (b.(sigs := grown), -1)
        else
          var s := if grown[sig].None? then [] else grown[sig].value;
          if s == [] && !env.backendOk then (b.(sigs := grown[sig := Some(s)]), -1)
          else (b.(sigs := grown[sig := Some([id] + s)], sigMask := b.sigMask + {sig}), 1)
  }

  function SignalDel(b: Base, id: Id, backendOk: bool): (Base, int)
    requires id in b.evs
  {
    var sig := b.evs[id].fd;
    if sig < 0 || sig >= |b.sigs| || b.sigs[sig].None? then (b, -1)
    else
      var s := Remove(b.sigs[sig].value, id);
      var b1 := b.(sigs := b.sigs[sig := Some(s)]);
      if s == [] then
        if backendOk then (b1.(sigMask := b.sigMask - {sig}), 1) else (b1, -1)
      else (b1, 1)
  }

  // ---------------------------------------------------------------------------------------
  // The operations on events
  // ---------------------------------------------------------------------------------------

  /** Puts an event on its fd's or signal's list and marks it inserted. */
  function Enlist(b: Base, id: Id, env: Env): (Base, int)
    requires id in b.evs
  {
    var (b', r) := if b.evs[id].interests != {} then IoAdd(b, id, env) else SignalAdd(b, id, env);
    if r != -1 then (InsertInserted(b', id), 0) else (b', -1)
  }

  /** Marks an event as not inserted and takes it off its list. */
  function Unlist(b: Base, id: Id, backendOk: bool): (Base, int)
    requires id in b.evs
  {
    var b' := RemoveInserted(b, id);
    var (b'', r) := if b'.evs[id].interests != {} then IoDel(b', id, backendOk) else SignalDel(b', id, backendOk);
    (b'', if r == 1 then 0 else r)
  }

  /** lu_event_add_nolock_; `timeout` says whether a timeout was given. */
  function Add(b: Base, id: Id, timeout: bool, env: Env): (Base, int)
    requires id in b.evs && b.evs[id].pri < |b.queues|
  {
    var e := b.evs[id];
    if timeout && !env.heapOk then (b, -1)
    else
      var (b1, res) :=
        if (e.interests != {} || e.signal) && !e.inserted && !e.active then Enlist(b, id, env) else (b, 0);
      if res != -1 && timeout && e.active && TimedOut in e.res then (RemoveActive(b1, id), res)
      else (b1, res)
  }

  /** lu_event_del_nolock_. */
  function Del(b: Base, id: Id, backendOk: bool): (Base, int)
    requires id in b.evs && b.evs[id].pri < |b.queues|
  {
    var b1 := RemoveActive(b, id);
    if b1.evs[id].inserted then Unlist(b1, id, backendOk) else (b1, 0)
  }

  /** lu_event_callback_activate_nolock_. */
  function Activate(b: Base, id: Id): (Base, int)
    requires id in b.evs && b.evs[id].pri < |b.queues|
  {
    if b.evs[id].active then (b, 0) else (InsertActive(b, id), 1)
  }

  /** lu_event_active_nolock_. */
  function Active(b: Base, id: Id, res: set<What>, ncalls: int): Base
    requires id in b.evs && b.evs[id].pri < |b.queues|
  {
    var e := b.evs[id];
    if e.active then b.(evs := b.evs[id := e.(res := e.res + res)])
    else
      var b1 := b.(
        evs := b.evs[id := e.(res := res, ncalls := if e.signal then ncalls else e.ncalls)],
        continue_ := b.continue_ || e.pri < b.running);
      Activate(b1, id).0
  }

  /** lu_event_priority_set. */
  function PrioritySet(b: Base, id: Id, pri: int): (Base, int)
    requires id in b.evs
  {
    var e := b.evs[id];
    if e.active || pri < 0 || pri >= |b.queues| then (b, -1)
    else (b.(evs := b.evs[id := e.(pri := pri)]), 0)
  }

  /** lu_event_callback_cancel_nolock_. */
  function Cancel(b: Base, id: Id, backendOk: bool): (Base, int)
    requires id in b.evs && b.evs[id].pri < |b.queues|
  {
    if b.evs[id].init then Del(b, id, backendOk) else (RemoveActive(b, id), 0)
  }

  /** What the storage of an event holds in the fields that lu_event_assign may leave as they are. */
  datatype Raw = Raw(fd: int, pri: nat)

  /** New storage holds `raw`, known storage the event that was there. */
  function Stored(b: Base, id: Id, raw: Raw): Raw {
    if id in b.evs then Raw(b.evs[id].fd, b.evs[id].pri) else raw
  }

  /** Are the signal bit and an fd interest both asked for?  The call then fails half-way. */
  predicate Mixed(interests: set<Interest>, signal: bool) {
    signal && interests != {}
  }

  /**
   lu_event_assign: nothing set, the middle priority unless the call fails, and the fd that the
   storage held, whatever the fd argument.
   */
  function Assign(b: Base, id: Id, raw: Raw, interests: set<Interest>, signal: bool, edge: bool, internal: bool,
      init: bool): Base
  {
    var was := Stored(b, id, raw);
    var pri := if Mixed(interests, signal) then was.pri else |b.queues| / 2;
    b.(evs := b.evs[id := Ev(was.fd, interests, signal, edge, internal, init, pri, false, false, {}, 0)])
  }

  function AssignResult(interests: set<Interest>, signal: bool): int {
    if Mixed(interests, signal) then -1 else 0
  }

  // ---------------------------------------------------------------------------------------
  // The invariant
  // ---------------------------------------------------------------------------------------

  predicate NoDup(s: seq<Id>) {
    s != [] ==> s[0] !in s[1..] && NoDup(s[1..])
  }

  function TotalLength(qs: seq<seq<Id>>): nat {
    if qs == [] then 0 else |qs[0]| + TotalLength(qs[1..])
  }

  /** An event is active exactly when it is, once, in the queue of its current priority. */
  ghost predicate QueuesOk(b: Base) {
    && (forall id :: id in b.evs ==> b.evs[id].pri < |b.queues|)
    && (forall i :: 0 <= i < |b.queues| ==> NoDup(b.queues[i]))
    && (forall i, id :: 0 <= i < |b.queues| ==>
          (id in b.queues[i] <==> id in b.evs && b.evs[id].active && b.evs[id].pri == i))
    && b.activeCount == TotalLength(b.queues) <= b.activeMax
  }

  function InsertedEvents(evs: map<Id, Ev>): set<Id> {
    set id | id in evs && evs[id].inserted && !evs[id].internal
  }

  function ActiveEvents(evs: map<Id, Ev>): set<Id> {
    set id | id in evs && evs[id].active && !evs[id].internal
  }

  /** The counter counts the queue flags set on events that are not internal. */
  ghost predicate CountOk(b: Base) {
    b.count == |InsertedEvents(b.evs)| + |ActiveEvents(b.evs)| <= b.countMax
  }

  function SlotAt(b: Base, fd: nat): IoSlot {
    if fd < |b.io| && b.io[fd].Some? then b.io[fd].value else IoSlot([], 0, 0, 0)
  }

  function SignalsAt(b: Base, sig: nat): seq<Id> {
    if sig < |b.sigs| && b.sigs[sig].Some? then b.sigs[sig].value else []
  }

  function Wanting(evs: map<Id, Ev>, s: seq<Id>, i: Interest): nat {
    if s == [] then 0 else One(s[0] in evs && i in evs[s[0]].interests) + Wanting(evs, s[1..], i)
  }

  ghost predicate SlotOk(evs: map<Id, Ev>, fd: nat, s: IoSlot, mask: set<Interest>) {
    && NoDup(s.events)
    && (forall id :: id in s.events <==> id in evs && evs[id].inserted && evs[id].interests != {} && evs[id].fd == fd)
    && s.nread == Wanting(evs, s.events, Read) <= MAX_EVENTS
    && s.nwrite == Wanting(evs, s.events, Write) <= MAX_EVENTS
    && s.nclose == Wanting(evs, s.events, Closed) <= MAX_EVENTS
    && OldMask(s) <= mask
  }

  ghost predicate SignalListOk(evs: map<Id, Ev>, sig: nat, s: seq<Id>, known: bool) {
    && NoDup(s)
    && (forall id :: id in s <==> id in evs && evs[id].inserted && evs[id].interests == {} && evs[id].fd == sig)
    && (s != [] ==> known)
  }

  ghost predicate MapsOk(b: Base) {
    && (forall fd: nat {:trigger SlotAt(b, fd)} :: SlotOk(b.evs, fd, SlotAt(b, fd), MaskAt(b, fd)))
    && (forall sig: nat {:trigger SignalsAt(b, sig)} :: SignalListOk(b.evs, sig, SignalsAt(b, sig), sig in b.sigMask))
  }

  ghost predicate EventsOk(b: Base) {
    forall id :: id in b.evs ==>
      var e := b.evs[id];
      && (!e.init ==> e.interests == {} && !e.signal)
      && (e.inserted && e.interests == {} ==> e.signal && 0 <= e.fd)
  }

  ghost predicate Inv(b: Base) {
    QueuesOk(b) && CountOk(b) && MapsOk(b) && EventsOk(b)
  }

  /** The backend knows exactly what the listed events want. */
  ghost predicate MaskExact(b: Base) {
    && (forall fd: nat {:trigger SlotAt(b, fd)} :: MaskAt(b, fd) == OldMask(SlotAt(b, fd)))
    && (forall sig: nat {:trigger SignalsAt(b, sig)} :: sig in b.sigMask ==> SignalsAt(b, sig) != [])
  }

  // ---------------------------------------------------------------------------------------
  // Lists
  // ---------------------------------------------------------------------------------------

  lemma {:induction false} RemoveNoDup(s: seq<Id>, x: Id)
    requires NoDup(s)
    ensures NoDup(Remove(s, x))
    ensures forall y :: y in Remove(s, x) <==> y in s && y != x
    ensures |Remove(s, x)| == |s| - One(x in s)
  {
    if s != [] {
      RemoveNoDup(s[1..], x);
      assert s == [s[0]] + s[1..];
      if s[0] != x {
        assert Remove(s, x)[1..] == Remove(s[1..], x);
      }
    }
  }

  lemma {:induction false} AppendNoDup(s: seq<Id>, x: Id)
    requires NoDup(s) && x !in s
    ensures NoDup(s + [x])
  {
    if s != [] {
      AppendNoDup(s[1..], x);
      assert (s + [x])[1..] == s[1..] + [x];
    }
  }

  lemma {:induction false} TotalUpdate(qs: seq<seq<Id>>, i: nat, q: seq<Id>)
    requires i < |qs|
    ensures TotalLength(qs[i := q]) == TotalLength(qs) - |qs[i]| + |q|
    ensures |qs[i]| <= TotalLength(qs)
  {
    if i == 0 {
      assert qs[i := q][1..] == qs[1..];
    } else {
      TotalUpdate(qs[1..], i - 1, q);
      assert qs[i := q][1..] == qs[1..][i - 1 := q];
    }
  }

  lemma {:induction false} WantingRemove(evs: map<Id, Ev>, s: seq<Id>, x: Id, i: Interest)
    requires NoDup(s) && x in s && x in evs
    ensures Wanting(evs, s, i) == Wanting(evs, Remove(s, x), i) + One(i in evs[x].interests)
  {
    if s[0] != x {
      WantingRemove(evs, s[1..], x, i);
      assert Remove(s, x)[1..] == Remove(s[1..], x);
    }
  }

  lemma {:induction false} WantingFrame(evs: map<Id, Ev>, evs': map<Id, Ev>, s: seq<Id>, i: Interest)
    requires forall id :: id in s ==> id in evs && id in evs' && evs[id].interests == evs'[id].interests
    ensures Wanting(evs, s, i) == Wanting(evs', s, i)
  {
    if s != [] {
      assert s[0] in s;
      WantingFrame(evs, evs', s[1..], i);
    }
  }

  lemma {:induction false} WantingSome(evs: map<Id, Ev>, s: seq<Id>, i: Interest)
    requires forall id :: id in s ==> id in evs
    ensures Wanting(evs, s, i) > 0 <==> exists id :: id in s && i in evs[id].interests
  {
    if s != [] {
      assert s[0] in s;
      WantingSome(evs, s[1..], i);
    }
  }

  /** The `old` argument is the union of the interests of the listed events. */
  lemma OldMaskIsUnion(b: Base, fd: nat, i: Interest)
    requires Inv(b)
    ensures i in OldMask(SlotAt(b, fd)) <==> exists id :: id in SlotAt(b, fd).events && i in b.evs[id].interests
  {
    var s := SlotAt(b, fd);
    assert SlotOk(b.evs, fd, s, MaskAt(b, fd));
    WantingSome(b.evs, s.events, i);
  }
}
