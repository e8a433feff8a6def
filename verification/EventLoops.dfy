/**
 The loops of the tear-down on the updated-in-place base of EventBase.dfy, each proved equal to
 the function of EventRuns.dfy or EventTeardown.dfy that it carries out.
 */
module EventLoops {
  import opened EventModel
  import R = EventRuns
  import T = EventTeardown
  import opened B = EventBase

  /** A list in the fd map, against the model. */
  lemma SlotIds(base: EventBase, fd: nat)
    requires base.Valid() && Inv(base.Model()) && fd < |base.io|
    ensures SlotAt(base.Model(), fd) == if base.io[fd] == null then IoSlot([], 0, 0, 0) else base.io[fd].Value()
    ensures base.io[fd] != null && base.io[fd].events != [] ==>
              var e := base.io[fd].events[0];
              && base.Has(e) && e in base.events.Values
              && e.pri < |base.queues| && Ids(base.io[fd].events)[0] == e.id
  {
    base.SlotKnown(fd);
    if base.io[fd] != null && base.io[fd].events != [] { FirstKnown(base, base.io[fd].events[0]); }
  }

  lemma FirstKnown(base: EventBase, e: Event)
    requires base.Valid() && Inv(base.Model()) && base.Has(e)
    ensures e in base.events.Values && e.pri < |base.queues|
  {
    base.Known(e);
    base.QueueCount();
    R.PrioritiesOk(base.Model());
  }

  /** lu_event_delete_all_in_dlist on the list of an fd. */
  method DeleteSlotEvents(base: EventBase, fd: nat, answers: Id -> bool)
    requires base.Valid() && Inv(base.Model()) && fd < |base.io| && base.io[fd] != null
    modifies base, base.io, base.sigs, base.events.Values
    ensures base.Valid() && Inv(base.Model()) && base.Model() == R.DeleteSlot(old(base.Model()), fd, answers)
    ensures base.events == old(base.events) && base.io == old(base.io) && base.sigs == old(base.sigs)
  {
    hide Inv, Del;
    var ctx := base.io[fd];
    SlotIds(base, fd);
    while ctx.events != []
      invariant base.Valid() && Inv(base.Model())
      invariant base.events == old(base.events) && base.io == old(base.io) && base.sigs == old(base.sigs)
      invariant R.DeleteSlot(base.Model(), fd, answers) == R.DeleteSlot(old(base.Model()), fd, answers)
      decreases |SlotAt(base.Model(), fd).events|
    {
      SlotIds(base, fd);
      var e := ctx.events[0];
      R.DelHead(base.Model(), fd, answers);
      var _ := base.Del(e, answers(e.id));
    }
    SlotIds(base, fd);
  }

  lemma SignalIds(base: EventBase, sig: nat)
    requires base.Valid() && Inv(base.Model()) && sig < |base.sigs|
    ensures SignalsAt(base.Model(), sig) == if base.sigs[sig] == null then [] else Ids(base.sigs[sig].events)
    ensures base.sigs[sig] != null && base.sigs[sig].events != [] ==>
              var e := base.sigs[sig].events[0];
              && base.Has(e) && e in base.events.Values
              && e.pri < |base.queues| && Ids(base.sigs[sig].events)[0] == e.id
  {
    base.SignalKnown(sig);
    if base.sigs[sig] != null && base.sigs[sig].events != [] { FirstKnown(base, base.sigs[sig].events[0]); }
  }

  /** lu_event_delete_all_in_dlist on the list of a signal. */
  method DeleteSignalEvents(base: EventBase, sig: nat, answers: Id -> bool)
    requires base.Valid() && Inv(base.Model()) && sig < |base.sigs| && base.sigs[sig] != null
    modifies base, base.io, base.sigs, base.events.Values
    ensures base.Valid() && Inv(base.Model()) && base.Model() == R.DeleteSignals(old(base.Model()), sig, answers)
    ensures base.events == old(base.events) && base.io == old(base.io) && base.sigs == old(base.sigs)
  {
    hide Inv, Del;
    var ctx := base.sigs[sig];
    SignalIds(base, sig);
    while ctx.events != []
      invariant base.Valid() && Inv(base.Model())
      invariant base.events == old(base.events) && base.io == old(base.io) && base.sigs == old(base.sigs)
      invariant R.DeleteSignals(base.Model(), sig, answers) == R.DeleteSignals(old(base.Model()), sig, answers)
      decreases |SignalsAt(base.Model(), sig)|
    {
      SignalIds(base, sig);
      var e := ctx.events[0];
      R.DelSignalHead(base.Model(), sig, answers);
      var _ := base.Del(e, answers(e.id));
    }
    SignalIds(base, sig);
  }

  /** lu_evmap_delete_all_: the two foreach loops, over the entries that exist. */
  method DeleteAll(base: EventBase, answers: Id -> bool)
    requires base.Valid() && Inv(base.Model())
    modifies base, base.io, base.sigs, base.events.Values
    ensures base.Valid() && Inv(base.Model()) && base.Model() == R.DeleteAll(old(base.Model()), answers)
    ensures base.events == old(base.events) && base.io == old(base.io) && base.sigs == old(base.sigs)
  {
    hide Inv, R.DeleteSignals, R.DeleteSlot;
    ghost var b0 := base.Model();
    SignalsLength(base.sigs);
    for signum := 0 to |base.sigs|
      invariant base.Valid() && Inv(base.Model()) && base.Model() == R.DeleteSignalsBelow(b0, signum, answers)
      invariant base.events == old(base.events) && base.io == old(base.io) && base.sigs == old(base.sigs)
    {
      SignalIds(base, signum);
      if base.sigs[signum] != null {
        DeleteSignalEvents(base, signum, answers);
      } else {
        NoSignals(base.Model(), signum, answers);
      }
    }
    ghost var b1 := base.Model();
    IoLength(base.io);
    for fd := 0 to |base.io|
      invariant base.Valid() && Inv(base.Model()) && base.Model() == R.DeleteSlotsBelow(b1, fd, answers)
      invariant base.events == old(base.events) && base.io == old(base.io) && base.sigs == old(base.sigs)
    {
      SlotIds(base, fd);
      if base.io[fd] != null {
        DeleteSlotEvents(base, fd, answers);
      } else {
        NoSlot(base.Model(), fd, answers);
      }
    }
    IoLength(old(base.io));
  }

  lemma NoSignals(b: Base, sig: nat, answers: Id -> bool)
    requires Inv(b) && SignalsAt(b, sig) == []
    ensures R.DeleteSignals(b, sig, answers) == b
  {
  }

  lemma NoSlot(b: Base, fd: nat, answers: Id -> bool)
    requires Inv(b) && SlotAt(b, fd).events == []
    ensures R.DeleteSlot(b, fd, answers) == b
  {
  }

  /** lu_event_base_cancel_single_callback_. */
  method CancelSingle(base: EventBase, e: Event, backendOk: bool) returns (result: nat)
    requires base.Valid() && base.Has(e) && e.pri < |base.queues|
    modifies base, base.io, base.sigs, e`inserted, e`active
    ensures base.Valid() && base.events == old(base.events) && base.io == old(base.io) && base.sigs == old(base.sigs)
    ensures (base.Model(), result) == T.CancelSingle(old(base.Model()), e.id, backendOk)
  {
    hide Del, EventValues;
    base.Known(e);
    result := 0;
    if e.init {
      if !e.internal {
        var _ := base.Del(e, backendOk);
        result := 1;
      }
    } else {
      var _ := base.Cancel(e, backendOk);
      result := 1;
    }
  }

  /** TAILQ_NEXT. */
  function After(q: seq<Event>, e: Event): Event? {
    if q == [] then null
    else if q[0] == e then (if |q| > 1 then q[1] else null)
    else After(q[1..], e)
  }

  function EventAt(s: seq<Event>, i: int): Event? {
    if 0 <= i < |s| then s[i] else null
  }

  lemma {:induction false} AfterAt(q: seq<Event>, k: nat)
    requires k < |q| && NoDup(Ids(q))
    ensures After(q, q[k]) == EventAt(q, k + 1)
  {
    assert Ids(q)[1..] == Ids(q[1..]);
    if k > 0 {
      assert Ids(q)[0] !in Ids(q)[1..] && Ids(q)[1..][k - 1] == q[k].id;
      AfterAt(q[1..], k - 1);
    }
  }

  lemma {:induction false} RemoveAt(s: seq<Id>, k: nat)
    requires k < |s| && NoDup(s)
    ensures k <= |Remove(s, s[k])| && Remove(s, s[k])[k..] == s[k + 1..]
  {
    if k > 0 {
      assert s[0] !in s[1..] && s[1..][k - 1] == s[k];
      RemoveAt(s[1..], k - 1);
      assert Remove(s, s[k])[k..] == Remove(s[1..], s[k])[k - 1..];
    }
  }

  lemma SameIds(a: seq<Event>, b: seq<Event>, events: map<Id, Event>)
    requires Registered(a, events) && Registered(b, events) && Ids(a) == Ids(b)
    ensures a == b
  {
    forall i | 0 <= i < |a| ensures a[i] == b[i] {
      assert Ids(a)[i] == Ids(b)[i];
    }
  }

  lemma QueueIdsAt(base: EventBase, i: nat)
    requires base.Valid() && i < |base.queues|
    ensures |base.Model().queues| == |base.queues|
    ensures base.Model().queues[i] == Ids(base.queues[i]) && Registered(base.queues[i], base.events)
  {
  }

  /** Cancelling the k-th callback of a queue leaves those behind it where they can be found. */
  lemma CancelShifts(b: Base, i: nat, k: nat, backendOk: bool)
    requires Inv(b) && i < |b.queues| && k < |b.queues[i]|
    ensures var id := b.queues[i][k];
            && id in b.evs && b.evs[id].pri < |b.queues|
            && var b' := T.CancelSingle(b, id, backendOk).0;
               && |b'.queues| == |b.queues|
               && b'.queues[i] == if T.Kept(b.evs[id]) then b.queues[i] else Remove(b.queues[i], id)
  {
    var id := b.queues[i][k];
    T.QueueKnown(b, i);
    R.PrioritiesOk(b);
    hide Inv;
    assert id in b.queues[i];
    R.DelShape(b, id, backendOk);
    hide Del;
  }

  lemma SliceIds(q: seq<Event>, k: nat)
    requires k <= |q|
    ensures Ids(q[k..]) == Ids(q)[k..]
  {
  }

  /** The queue behind position `k`, before and after a cancellation, as events. */
  lemma Shifted(q: seq<Event>, q': seq<Event>, k: nat, kept: bool, events: map<Id, Event>)
    requires k < |q| && NoDup(Ids(q)) && Registered(q, events) && Registered(q', events)
    requires Ids(q') == if kept then Ids(q) else Remove(Ids(q), q[k].id)
    ensures var k' := if kept then k + 1 else k; k' <= |q'| && q'[k'..] == q[k + 1..]
  {
    if kept {
      SameIds(q, q', events);
    } else {
      RemoveAt(Ids(q), k);
      SliceIds(q', k);
      SliceIds(q, k + 1);
      SameIds(q'[k..], q[k + 1..], events);
    }
  }

  /** Cancels the k-th callback of a queue; the ones behind it stay behind it. */
  method CancelAt(base: EventBase, i: nat, ghost k: nat, evcb: Event, backendOk: bool) returns (d: nat, ghost k': nat)
    requires base.Valid() && Inv(base.Model()) && i < |base.queues|
    requires k < |base.queues[i]| && base.queues[i][k] == evcb
    modifies base, base.io, base.sigs, base.events.Values
    ensures base.Valid() && Inv(base.Model()) && |base.queues| == old(|base.queues|)
    ensures base.events == old(base.events) && base.io == old(base.io) && base.sigs == old(base.sigs)
    ensures evcb.id in old(base.Model()).evs && old(base.Model()).evs[evcb.id].pri < |old(base.Model()).queues|
    ensures (base.Model(), d) == T.CancelSingle(old(base.Model()), evcb.id, backendOk)
    ensures base.Model().evs.Keys == old(base.Model()).evs.Keys
    ensures k' <= |base.queues[i]| && base.queues[i][k'..] == old(base.queues[i])[k + 1..]
  {
    hide Inv, T.CancelSingle, EventValues, AllIds, Registered, Ids;
    ghost var b, q, events := base.Model(), base.queues[i], base.events;
    QueueIdsAt(base, i);
    T.QueueKnown(b, i);
    IdAt(q, k, events);
    FirstKnown(base, evcb);
    base.Known(evcb);
    CancelShifts(b, i, k, backendOk);
    T.CancelSingleOk(b, evcb.id, backendOk);
    d := CancelSingle(base, evcb, backendOk);
    base.QueueCount();
    QueueIdsAt(base, i);
    Shifted(q, base.queues[i], k, T.Kept(b.evs[evcb.id]), events);
    k' := if T.Kept(b.evs[evcb.id]) then k + 1 else k;
  }

  lemma IdAt(q: seq<Event>, k: nat, events: map<Id, Event>)
    requires k < |q| && Registered(q, events)
    ensures |Ids(q)| == |q| && Ids(q)[k] == q[k].id && q[k].id in events && events[q[k].id] == q[k]
  {
  }

  lemma FreeQueueUnfolds(b: Base, s: seq<Id>, answers: Id -> bool)
    requires Inv(b) && forall id :: id in s ==> id in b.evs
    ensures s == [] ==> T.FreeQueue(b, s, answers) == (b, 0)
    ensures s != [] ==>
              && s[0] in b.evs && b.evs[s[0]].pri < |b.queues|
              && var (b1, d) := T.CancelSingle(b, s[0], answers(s[0]));
                 && Inv(b1) && b1.evs.Keys == b.evs.Keys
                 && T.FreeQueue(b, s, answers).0 == T.FreeQueue(b1, s[1..], answers).0
                 && T.FreeQueue(b, s, answers).1 == d + T.FreeQueue(b1, s[1..], answers).1
  {
    hide *;
    if s != [] {
      FirstCancelled(b, s, answers);
      FreeQueueDefined(b, s, answers);
    } else {
      FreeQueueEmpty(b, answers);
    }
  }

  lemma FreeQueueEmpty(b: Base, answers: Id -> bool)
    requires Inv(b)
    ensures T.FreeQueue(b, [], answers) == (b, 0)
  {
  }

  lemma FirstCancelled(b: Base, s: seq<Id>, answers: Id -> bool)
    requires Inv(b) && s != [] && forall id :: id in s ==> id in b.evs
    ensures s[0] in b.evs && b.evs[s[0]].pri < |b.queues|
    ensures var (b1, d) := T.CancelSingle(b, s[0], answers(s[0])); Inv(b1) && b1.evs.Keys == b.evs.Keys
    ensures forall id :: id in s[1..] ==> id in b.evs
  {
    R.PrioritiesOk(b);
    assert s[0] in s;
    T.CancelSingleOk(b, s[0], answers(s[0]));
  }

  lemma FreeQueueDefined(b: Base, s: seq<Id>, answers: Id -> bool)
    requires Inv(b) && s != [] && (forall id :: id in s ==> id in b.evs)
    requires s[0] in b.evs && b.evs[s[0]].pri < |b.queues|
    requires var (b1, d) := T.CancelSingle(b, s[0], answers(s[0]));
            Inv(b1) && forall id :: id in s[1..] ==> id in b1.evs
    ensures var (b1, d) := T.CancelSingle(b, s[0], answers(s[0]));
            && T.FreeQueue(b, s, answers).0 == T.FreeQueue(b1, s[1..], answers).0
            && T.FreeQueue(b, s, answers).1 == d + T.FreeQueue(b1, s[1..], answers).1
  {
    hide Inv, T.CancelSingle;
  }

  /** One loop of lu_event_base_free_queues_, which saves the next callback before it cancels. */
  method FreeQueue(base: EventBase, i: nat, answers: Id -> bool) returns (deleted: nat)
    requires base.Valid() && Inv(base.Model()) && i < |base.queues|
    modifies base, base.io, base.sigs, base.events.Values
    ensures base.Valid() && Inv(base.Model()) && |base.queues| == old(|base.queues|)
    ensures base.events == old(base.events) && base.io == old(base.io) && base.sigs == old(base.sigs)
    ensures forall id :: id in old(Ids(base.queues[i])) ==> id in old(base.Model()).evs
    ensures (base.Model(), deleted) == T.FreeQueue(old(base.Model()), old(Ids(base.queues[i])), answers)
  {
    hide Inv, T.CancelSingle, T.FreeQueue, EventValues, AllIds, Registered, EventBase.Valid, EventBase.Model, After;
    ghost var s, j: nat, k: nat := base.queues[i], 0, 0;
    var evcb := EventAt(base.queues[i], 0);
    deleted := 0;
    QueueIdsAt(base, i);
    T.QueueKnown(base.Model(), i);
    ghost var goal := T.FreeQueue(base.Model(), Ids(s), answers);
    assert Ids(s)[0..] == Ids(s);
    while evcb != null
      invariant base.Valid() && Inv(base.Model()) && |base.queues| == old(|base.queues|)
      invariant base.events == old(base.events) && base.io == old(base.io) && base.sigs == old(base.sigs)
      invariant j <= |s| && k <= |base.queues[i]| && base.queues[i][k..] == s[j..] && evcb == EventAt(s, j)
      invariant forall id :: id in Ids(s)[j..] ==> id in base.Model().evs
      invariant T.FreeQueue(base.Model(), Ids(s)[j..], answers).0 == goal.0
      invariant deleted + T.FreeQueue(base.Model(), Ids(s)[j..], answers).1 == goal.1
      decreases |s| - j
    {
      ghost var b := base.Model();
      QueueIdsAt(base, i);
      T.QueueKnown(b, i);
      assert base.queues[i][k] == base.queues[i][k..][0] == s[j..][0];
      AfterAt(base.queues[i], k);
      FreeQueueUnfolds(b, Ids(s)[j..], answers);
      assert Ids(s)[j..][1..] == Ids(s)[j + 1..] && Ids(s)[j..][0] == evcb.id;
      NextOf(base.queues[i], k, s, j);
      var next := After(base.queues[i], evcb);
      var d;
      d, k := CancelAt(base, i, k, evcb, answers(evcb.id));
      deleted := deleted + d;
      evcb := next;
      j := j + 1;
    }
    FreeQueueUnfolds(base.Model(), Ids(s)[j..], answers);
  }

  lemma NextOf(q: seq<Event>, k: nat, s: seq<Event>, j: nat)
    requires k < |q| && j < |s| && q[k..] == s[j..]
    ensures EventAt(q, k + 1) == EventAt(s, j + 1) && q[k + 1..] == s[j + 1..]
  {
    assert q[k + 1..] == q[k..][1..] && s[j + 1..] == s[j..][1..];
    if k + 1 < |q| { assert q[k + 1] == q[k..][1] && s[j + 1] == s[j..][1]; }
  }

  /** lu_event_base_free_queues_; the later queue is always empty. */
  method FreeQueues(base: EventBase, answers: Id -> bool) returns (deleted: nat)
    requires base.Valid() && Inv(base.Model())
    modifies base, base.io, base.sigs, base.events.Values
    ensures base.Valid() && Inv(base.Model())
    ensures base.events == old(base.events) && base.io == old(base.io) && base.sigs == old(base.sigs)
    ensures (base.Model(), deleted) == T.FreeQueues(old(base.Model()), answers)
  {
    hide Inv, T.FreeQueue, EventValues, AllIds;
    ghost var b0 := base.Model();
    base.QueueCount();
    deleted := 0;
    for i := 0 to |base.queues|
      invariant base.Valid() && Inv(base.Model()) && |base.queues| == old(|base.queues|)
      invariant base.events == old(base.events) && base.io == old(base.io) && base.sigs == old(base.sigs)
      invariant (base.Model(), deleted) == T.FreeBelow(b0, i, answers)
    {
      QueueIdsAt(base, i);
      T.QueueKnown(base.Model(), i);
      var d := FreeQueue(base, i, answers);
      deleted := deleted + d;
    }
  }

  /**
   The tear-down in lu_event_base_free_: the maps, then passes over the queues until one of them
   finds nothing to cancel.  There are at most two passes.
   */
  method FreeBase(base: EventBase, answers: Id -> bool) returns (passes: nat)
    requires base.Valid() && Inv(base.Model())
    modifies base, base.io, base.sigs, base.events.Values
    ensures base.Valid() && Inv(base.Model()) && 1 <= passes <= 2
    ensures base.Model() == T.FreeQueues(R.DeleteAll(old(base.Model()), answers), answers).0
  {
    hide Inv, T.FreeQueues, R.DeleteAll;
    DeleteAll(base, answers);
    ghost var b1 := base.Model();
    T.SecondPassIdle(b1, answers);
    passes := 0;
    while true
      invariant base.Valid() && Inv(base.Model()) && passes <= 1
      invariant base.events == old(base.events) && base.io == old(base.io) && base.sigs == old(base.sigs)
      invariant base.Model() == if passes == 0 then b1 else T.FreeQueues(b1, answers).0
      decreases 2 - passes
    {
      var i := FreeQueues(base, answers);
      passes := passes + 1;
      if i == 0 {
        break;
      }
    }
  }
}
