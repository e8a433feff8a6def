/**
 Emptying the active queues when a base is freed, the whole of lu_event_base_free_'s
 bookkeeping, and one-shot events.
 */
module EventTeardown {
  import opened EventModel
  import opened EventInvariant
  import opened EventRuns

  // ---------------------------------------------------------------------------------------
  // lu_event_base_free_queues_
  // ---------------------------------------------------------------------------------------

  /** The callbacks that are passed over: internal events. */
  predicate Kept(e: Ev) {
    e.init && e.internal
  }

  /** lu_event_base_cancel_single_callback_; the second result is what it adds to `deleted`. */
  function CancelSingle(b: Base, id: Id, backendOk: bool): (Base, nat)
    requires id in b.evs && b.evs[id].pri < |b.queues|
  {
    if Kept(b.evs[id]) then (b, 0) else (Cancel(b, id, backendOk).0, 1)
  }

  /** One loop over a queue: the callbacks that were in it when the loop began, in order. */
  ghost function FreeQueue(b: Base, s: seq<Id>, answers: Id -> bool): (r: (Base, nat))
    requires Inv(b) && forall id :: id in s ==> id in b.evs
    ensures Inv(r.0) && |r.0.queues| == |b.queues|
    decreases |s|
  {
    if s == [] then (b, 0)
    else
      CancelSingleOk(b, s[0], answers(s[0]));
      hide Inv, CancelSingle;
      assert s[0] in s && forall id :: id in s[1..] ==> id in s;
      var (b1, d) := CancelSingle(b, s[0], answers(s[0]));
      var (b2, n) := FreeQueue(b1, s[1..], answers);
      (b2, d + n)
  }

  /** The queues below `n`, each loop over what the queue held when its turn came. */
  ghost function FreeBelow(b: Base, n: nat, answers: Id -> bool): (r: (Base, nat))
    requires Inv(b) && n <= |b.queues|
    ensures Inv(r.0) && |r.0.queues| == |b.queues|
  {
    if n == 0 then (b, 0)
    else
      var (b1, d) := FreeBelow(b, n - 1, answers);
      QueueKnown(b1, n - 1);
      hide Inv, FreeQueue;
      var (b2, m) := FreeQueue(b1, b1.queues[n - 1], answers);
      (b2, d + m)
  }

  ghost function FreeQueues(b: Base, answers: Id -> bool): (r: (Base, nat))
    requires Inv(b)
    ensures Inv(r.0)
  {
    FreeBelow(b, |b.queues|, answers)
  }

  lemma QueueKnown(b: Base, i: nat)
    requires Inv(b) && i < |b.queues|
    ensures forall id :: id in b.queues[i] ==> id in b.evs && b.evs[id].active && b.evs[id].pri == i
    ensures NoDup(b.queues[i])
  {
  }

  lemma RemoveActiveTally(b: Base, id: Id)
    requires id in b.evs && b.evs[id].pri < |b.queues|
    ensures var b' := RemoveActive(b, id);
            b'.activeCount == b.activeCount - One(b.evs[id].active) && |b'.queues| == |b.queues|
  {
  }

  /** Cancelling touches one callback, which ends inactive unless it is kept. */
  lemma CancelSingleOk(b: Base, id: Id, backendOk: bool)
    requires Inv(b) && id in b.evs
    ensures var (b', d) := CancelSingle(b, id, backendOk);
            && Inv(b') && |b'.queues| == |b.queues| && b'.evs.Keys == b.evs.Keys
            && (forall x :: x in b.evs && x != id ==> b'.evs[x] == b.evs[x])
            && (Kept(b.evs[id]) ==> b' == b && d == 0)
            && (!Kept(b.evs[id]) ==> !b'.evs[id].active && d == 1)
            && b'.activeCount == b.activeCount - (if Kept(b.evs[id]) then 0 else One(b.evs[id].active))
  {
    CancelInv(b, id, backendOk);
    CancelEffect(b, id, backendOk);
    hide Inv, Cancel;
  }

  lemma CancelEffect(b: Base, id: Id, backendOk: bool)
    requires Inv(b) && id in b.evs
    ensures var b' := Cancel(b, id, backendOk).0;
            && |b'.queues| == |b.queues| && b'.evs.Keys == b.evs.Keys && !b'.evs[id].active
            && (forall x :: x in b.evs && x != id ==> b'.evs[x] == b.evs[x])
            && b'.activeCount == b.activeCount - One(b.evs[id].active)
  {
    PrioritiesOk(b);
    hide Inv;
    RemoveActiveTally(b, id);
    assert RemoveActive(b, id).evs == b.evs[id := b.evs[id].(active := false)];
    if b.evs[id].init {
      DelFlags(b, id, backendOk);
      DelShape(b, id, backendOk);
    }
    hide Del, RemoveActive;
  }

  /** A callback after a pass: kept ones as they were, the others inactive. */
  predicate Swept(e: Ev, e': Ev) {
    if Kept(e) then e' == e else !e'.active
  }

  ghost predicate SweptAll(b: Base, b': Base, s: seq<Id>) {
    && |b'.queues| == |b.queues| && b'.evs.Keys == b.evs.Keys
    && (forall id {:trigger b'.evs[id]} :: id in b'.evs ==>
          if id in s then Swept(b.evs[id], b'.evs[id]) else b'.evs[id] == b.evs[id])
  }

  lemma SweptMore(b: Base, b1: Base, b2: Base, s: seq<Id>)
    requires NoDup(s) && s != [] && (forall id :: id in s ==> id in b.evs)
    requires SweptAll(b, b1, [s[0]]) && SweptAll(b1, b2, s[1..])
    ensures SweptAll(b, b2, s)
  {
    assert s == [s[0]] + s[1..];
  }

  lemma {:induction false} FreeQueueOk(b: Base, s: seq<Id>, answers: Id -> bool)
    requires Inv(b) && NoDup(s)
    requires forall id :: id in s ==> id in b.evs && b.evs[id].active
    ensures var (b', n) := FreeQueue(b, s, answers);
            Inv(b') && SweptAll(b, b', s) && n == b.activeCount - b'.activeCount
    decreases |s|
  {
    PrioritiesOk(b);
    assert s == [] ==> SweptAll(b, b, s);
    hide Inv, CancelSingle;
    if s != [] {
      CancelSingleOk(b, s[0], answers(s[0]));
      var (b1, d) := CancelSingle(b, s[0], answers(s[0]));
      assert s[0] in s && s[0] !in s[1..] && forall id :: id in s[1..] ==> id in s;
      FreeQueueOk(b1, s[1..], answers);
      SweptMore(b, b1, FreeQueue(b, s, answers).0, s);
    }
  }

  ghost predicate SweptBelow(b: Base, b': Base, n: nat) {
    && b'.evs.Keys == b.evs.Keys
    && (forall id {:trigger b'.evs[id]} :: id in b'.evs ==>
          if b.evs[id].active && b.evs[id].pri < n then Swept(b.evs[id], b'.evs[id]) else b'.evs[id] == b.evs[id])
  }

  lemma SweptBelowMore(b: Base, b1: Base, b2: Base, n: nat)
    requires Inv(b1) && n < |b1.queues|
    requires SweptBelow(b, b1, n) && SweptAll(b1, b2, b1.queues[n])
    ensures SweptBelow(b, b2, n + 1)
  {
    QueueExact(b1, n);
    QueueKnown(b1, n);
    hide Inv;
  }

  lemma FreeBelowStep(b: Base, n: nat, answers: Id -> bool)
    requires Inv(b) && n < |b.queues|
    ensures var (b1, d), (b', d') := FreeBelow(b, n, answers), FreeBelow(b, n + 1, answers);
            && n < |b1.queues| && SweptAll(b1, b', b1.queues[n])
            && d' - d == b1.activeCount - b'.activeCount
  {
    var (b1, d) := FreeBelow(b, n, answers);
    QueueKnown(b1, n);
    FreeQueueOk(b1, b1.queues[n], answers);
    hide Inv, FreeQueue, SweptAll;
  }

  lemma FreeBelowNone(b: Base, answers: Id -> bool)
    requires Inv(b)
    ensures FreeBelow(b, 0, answers) == (b, 0) && SweptBelow(b, b, 0)
  {
  }

  lemma {:induction false} FreeBelowOk(b: Base, n: nat, answers: Id -> bool)
    requires Inv(b) && n <= |b.queues|
    ensures var (b', d) := FreeBelow(b, n, answers);
            SweptBelow(b, b', n) && d == b.activeCount - b'.activeCount
  {
    hide *;
    if n == 0 {
      FreeBelowNone(b, answers);
    } else {
      FreeBelowOk(b, n - 1, answers);
      FreeBelowStep(b, n - 1, answers);
      SweptBelowMore(b, FreeBelow(b, n - 1, answers).0, FreeBelow(b, n, answers).0, n - 1);
    }
  }

  lemma QueueExact(b: Base, i: nat)
    requires Inv(b) && i < |b.queues|
    ensures forall id :: id in b.evs && b.evs[id].active && b.evs[id].pri == i ==> id in b.queues[i]
  {
  }

  /** One pass leaves exactly the kept callbacks active and returns how many it made inactive. */
  lemma FreeQueuesExact(b: Base, answers: Id -> bool)
    requires Inv(b)
    ensures var (b', n) := FreeQueues(b, answers);
            && n == b.activeCount - b'.activeCount && b'.evs.Keys == b.evs.Keys
            && (forall id :: id in b.evs ==> (b'.evs[id].active <==> b.evs[id].active && Kept(b.evs[id])))
            && (forall id :: id in b.evs && (!b.evs[id].active || Kept(b.evs[id])) ==> b'.evs[id] == b.evs[id])
  {
    PrioritiesOk(b);
    FreeBelowOk(b, |b.queues|, answers);
    hide Inv, FreeBelow;
    var b' := FreeQueues(b, answers).0;
    forall id | id in b.evs
      ensures b'.evs[id].active <==> b.evs[id].active && Kept(b.evs[id])
      ensures !b.evs[id].active || Kept(b.evs[id]) ==> b'.evs[id] == b.evs[id]
    {
      assert id in b'.evs;
    }
  }

  lemma {:induction false} FreeQueueIdle(b: Base, s: seq<Id>, answers: Id -> bool)
    requires Inv(b) && forall id :: id in s ==> id in b.evs && Kept(b.evs[id])
    ensures FreeQueue(b, s, answers) == (b, 0)
    decreases |s|
  {
    PrioritiesOk(b);
    hide Inv;
    if s != [] {
      assert s[0] in s && forall id :: id in s[1..] ==> id in s;
      FreeQueueIdle(b, s[1..], answers);
    }
  }

  lemma {:induction false} FreeBelowIdle(b: Base, n: nat, answers: Id -> bool)
    requires Inv(b) && n <= |b.queues| && forall id :: id in b.evs && b.evs[id].active ==> Kept(b.evs[id])
    ensures FreeBelow(b, n, answers) == (b, 0)
  {
    hide Inv, FreeQueue;
    if n != 0 {
      FreeBelowIdle(b, n - 1, answers);
      QueueKnown(b, n - 1);
      FreeQueueIdle(b, b.queues[n - 1], answers);
    }
  }

  /** A second pass does nothing and returns 0, which ends the endless loop of the caller. */
  lemma SecondPassIdle(b: Base, answers: Id -> bool)
    requires Inv(b)
    ensures var b' := FreeQueues(b, answers).0;
            FreeQueues(b', answers) == (b', 0)
  {
    var b' := FreeQueues(b, answers).0;
    FreeQueuesExact(b, answers);
    FreeBelowIdle(b', |b'.queues|, answers);
    hide FreeBelow;
  }

  /**
   Freeing a base: after the maps and the queues are emptied, the assertion that every queue is
   empty holds exactly if no internal event was active outside the maps.
   */
  lemma FreeLeavesQueuesEmpty(b: Base, answers: Id -> bool)
    requires Inv(b)
    ensures var b' := FreeQueues(DeleteAll(b, answers), answers).0;
            (forall i :: 0 <= i < |b'.queues| ==> b'.queues[i] == [])
              <==> forall id :: id in b.evs && b.evs[id].active && Kept(b.evs[id]) ==> Mapped(b.evs[id])
  {
    hide DeleteAll, FreeQueues;
    DeleteAllExact(b, answers);
    var b1 := DeleteAll(b, answers);
    FreeQueuesExact(b1, answers);
    var b' := FreeQueues(b1, answers).0;
    EmptyQueues(b');
    hide Inv;
    assert forall id :: id in b.evs ==>
        (b'.evs[id].active <==> b.evs[id].active && Kept(b.evs[id]) && !Mapped(b.evs[id]));
  }

  /**
   Two operations after which freeing the base leaves a queue filled: an internal event is active
   without being on a list.  Only the library's own events are internal.
   */
  lemma QueueStaysFilled(answers: Id -> bool)
    ensures Inv(Init(1)) && |Init(1).queues| == 1
    ensures var ops := [OpAssign(0, Raw(0, 0), {}, false, false, true, true), OpActive(0, {TimedOut}, 1)];
            var b := FreeQueues(DeleteAll(Run(Init(1), ops), answers), answers).0;
            exists i :: 0 <= i < |b.queues| && b.queues[i] != []
  {
    var op1, op2 := OpAssign(0, Raw(0, 0), {}, false, false, true, true), OpActive(0, {TimedOut}, 1);
    InitInv(1);
    RunTwo(Init(1), op1, op2);
    KeptActive();
    FreeLeavesQueuesEmpty(Run(Init(1), [op1, op2]), answers);
  }

  lemma KeptActive()
    ensures Inv(Init(1))
    ensures var b1 := Assign(Init(1), 0, Raw(0, 0), {}, false, false, true, true);
            var e := Ev(0, {}, false, false, true, true, 0, false, true, {TimedOut}, 0);
            && Inv(b1) && Step(Init(1), OpAssign(0, Raw(0, 0), {}, false, false, true, true)) == b1
            && 0 in Step(b1, OpActive(0, {TimedOut}, 1)).evs && Step(b1, OpActive(0, {TimedOut}, 1)).evs[0] == e
            && Kept(e) && !Mapped(e)
  {
    InitInv(1);
    var b1 := Assign(Init(1), 0, Raw(0, 0), {}, false, false, true, true);
    hide Inv;
    StepInv(Init(1), OpAssign(0, Raw(0, 0), {}, false, false, true, true));
  }

  lemma EmptyQueues(b: Base)
    requires Inv(b)
    ensures (forall i :: 0 <= i < |b.queues| ==> b.queues[i] == []) <==>
        forall id :: id in b.evs ==> !b.evs[id].active
  {
    forall i | 0 <= i < |b.queues| ensures b.queues[i] == []
        || (b.queues[i][0] in b.evs && b.evs[b.queues[i][0]].active) {
      assert b.queues[i] != [] ==> b.queues[i][0] in b.queues[i];
    }
    forall id | id in b.evs && b.evs[id].active ensures b.queues[b.evs[id].pri] != [] {
      assert id in b.queues[b.evs[id].pri];
    }
  }

  // ---------------------------------------------------------------------------------------
  // lu_event_base_once
  // ---------------------------------------------------------------------------------------

  /** The timeout of a one-shot event: absent, zero, or positive. */
  datatype Timeout = NoTimeout | Zero | Positive

  /** The storage is freed again if scheduling failed. */
  function Scheduled(id: Id, r: (Base, int)): (Base, int) {
    if r.1 != 0 then (r.0.(evs := r.0.evs - {id}), r.1) else r
  }

  /** Storage that comes from calloc. */
  const ZEROED := Raw(0, 0)

  /**
   `id` is the storage the call allocates, `timeout` and `interests` the bits of `events`, and
   `forbidden` says whether the signal or the persist bit is among them.
   */
  function Once(b: Base, id: Id, timeout: bool, interests: set<Interest>, forbidden: bool, tv: Timeout,
      stored: bool, env: Env): (Base, int)
    requires id !in b.evs && 0 < |b.queues|
  {
    if forbidden || !stored then (b, -1)
    else if timeout && interests == {} then
      var b1 := Assign(b, id, ZEROED, {}, false, false, false, true);
      if tv != Positive then (Active(b1, id, {TimedOut}, 1), 0) else Scheduled(id, Add(b1, id, true, env))
    else if interests != {} then
      Scheduled(id, Add(Assign(b, id, ZEROED, interests, false, false, false, true), id, tv != NoTimeout, env))
    else (b, -1)
  }

  lemma Forgotten(b: Base, e: Ev, id: Id, a: Base)
    requires id !in b.evs && Untouched(b.(evs := b.evs[id := e]), a)
    ensures Untouched(b, a.(evs := a.evs - {id}))
  {
    var b1, b' := b.(evs := b.evs[id := e]), a.(evs := a.evs - {id});
    assert b1.evs - {id} == b.evs;
    assert b'.io == a.io && b'.sigs == a.sigs && b1.io == b.io && b1.sigs == b.sigs;
    forall f: nat {:trigger SlotAt(b', f)} ensures SlotAt(b', f) == SlotAt(b, f) {
      assert SlotAt(a, f) == SlotAt(b1, f);
    }
    forall s: nat {:trigger SignalsAt(b', s)} ensures SignalsAt(b', s) == SignalsAt(b, s) {
      assert SignalsAt(a, s) == SignalsAt(b1, s);
    }
  }

  lemma OnceAdds(b: Base, id: Id, interests: set<Interest>, timeout: bool, env: Env)
    requires Inv(b) && id !in b.evs && 0 < |b.queues|
    ensures var b1 := Assign(b, id, ZEROED, interests, false, false, false, true);
            var (b', r) := Scheduled(id, Add(b1, id, timeout, env));
            && Inv(b') && (r != 0 ==> r == -1 && Untouched(b, b'))
            && (r == 0 ==>
                  && id in b'.evs && b'.evs[id].fd == 0
                  && !b'.evs[id].active && (b'.evs[id].inserted <==> interests != {}))
  {
    var b1 := Assign(b, id, ZEROED, interests, false, false, false, true);
    AssignInv(b, id, ZEROED, interests, false, false, false, true);
    AddInv(b1, id, timeout, env);
    PrioritiesOk(b1);
    hide Inv;
    OnceOutcome(b1, id, timeout, env);
    hide Add, Untouched;
    var (a, r) := Add(b1, id, timeout, env);
    if r == -1 {
      Forgotten(b, b1.evs[id], id, a);
      UntouchedInv(b, a.(evs := a.evs - {id}));
    }
  }

  /** Adding a fresh event succeeds or fails; a success lists it if it has interests. */
  lemma OnceOutcome(b: Base, id: Id, timeout: bool, env: Env)
    requires id in b.evs && b.evs[id].pri < |b.queues|
    requires !b.evs[id].inserted && !b.evs[id].active && !b.evs[id].signal
    ensures var (b', r) := Add(b, id, timeout, env);
            && (r == 0 || r == -1) && id in b'.evs
            && (r == 0 ==>
                  && b'.evs[id].fd == b.evs[id].fd
                  && !b'.evs[id].active && (b'.evs[id].inserted <==> b.evs[id].interests != {}))
  {
    EnlistShape(b, id, env);
  }

  /**
   A one-shot event: a failing call leaves nothing behind.  A successful one leaves the event
   active if it has neither interests nor a positive timeout, and listed if it has interests; a
   pure timer with a positive timeout is left neither listed nor active.  The event is always one
   of fd 0, whatever fd was asked for.
   */
  lemma OnceOk(b: Base, id: Id, timeout: bool, interests: set<Interest>, forbidden: bool, tv: Timeout,
      stored: bool, env: Env)
    requires Inv(b) && id !in b.evs && 0 < |b.queues|
    ensures var (b', r) := Once(b, id, timeout, interests, forbidden, tv, stored, env);
            && Inv(b') && (r != 0 ==> r == -1 && Untouched(b, b'))
            && (r == 0 ==>
                  && id in b'.evs && b'.evs[id].fd == 0 && !forbidden && (timeout || interests != {})
                  && (b'.evs[id].inserted <==> interests != {})
                  && (b'.evs[id].active <==> interests == {} && tv != Positive))
  {
    hide Inv, Add, Active, Assign, Scheduled, Untouched;
    if forbidden || !stored || (!timeout && interests == {}) {
      OnceRefused(b, id, timeout, interests, forbidden, tv, stored, env);
    } else if interests == {} {
      OnceActivates(b, id);
      OnceAdds(b, id, {}, true, env);
    } else {
      OnceAdds(b, id, interests, tv != NoTimeout, env);
    }
  }

  lemma OnceRefused(b: Base, id: Id, timeout: bool, interests: set<Interest>, forbidden: bool, tv: Timeout,
      stored: bool, env: Env)
    requires id !in b.evs && 0 < |b.queues| && (forbidden || !stored || (!timeout && interests == {}))
    ensures Once(b, id, timeout, interests, forbidden, tv, stored, env) == (b, -1) && Untouched(b, b)
  {
  }

  lemma OnceActivates(b: Base, id: Id)
    requires Inv(b) && id !in b.evs && 0 < |b.queues|
    ensures var b' := Active(Assign(b, id, ZEROED, {}, false, false, false, true), id, {TimedOut}, 1);
            Inv(b') && id in b'.evs && b'.evs[id].fd == 0 && b'.evs[id].active && !b'.evs[id].inserted
  {
    AssignInv(b, id, ZEROED, {}, false, false, false, true);
    var b1 := Assign(b, id, ZEROED, {}, false, false, false, true);
    ActiveInv(b1, id, {TimedOut}, 1);
    hide Inv;
  }
}
