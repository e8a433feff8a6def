/**
 The event bookkeeping in the form of src/lu_event.c and src/lu_evmap.c: events, map slots and one
 base, updated in place.  Every method is proved equal to the step of EventModel.dfy of that name.
 */
module EventBase {
  import opened EventModel

  /** lu_event_t, or a bare callback; `id` is its address. */
  class Event {
    const id: Id
    var fd: int
    var interests: set<Interest>
    var signal: bool
    var edge: bool
    var internal: bool
    var init: bool
    var pri: nat
    var inserted: bool
    var active: bool
    var res: set<What>
    var ncalls: int

    /** lu_event_assign on new storage, which holds `raw`. */
    constructor (id: Id, raw: Raw, interests: set<Interest>, signal: bool, edge: bool, internal: bool, init: bool,
        middle: nat)
      ensures this.id == id
      ensures Value() == Ev(raw.fd, interests, signal, edge, internal, init,
                if Mixed(interests, signal) then raw.pri else middle, false, false, {}, 0)
    {
      this.id, this.fd := id, raw.fd;
      this.interests, this.signal, this.edge := interests, signal, edge;
      this.internal, this.init, this.pri := internal, init, if signal && interests != {} then raw.pri else middle;
      inserted, active, res, ncalls := false, false, {}, 0;
    }

    /** lu_event_assign on storage that was used before; the fd is not written. */
    method Reassign(interests: set<Interest>, signal: bool, edge: bool, internal: bool, init: bool, middle: nat)
      returns (r: int)
      modifies this
      ensures Value() == Ev(old(fd), interests, signal, edge, internal, init,
                if Mixed(interests, signal) then old(pri) else middle, false, false, {}, 0)
      ensures r == AssignResult(interests, signal)
    {
      this.interests, this.signal, this.edge := interests, signal, edge;
      this.internal, this.init := internal, init;
      inserted, active, res, ncalls := false, false, {}, 0;
      if signal && interests != {} {
        return -1;
      }
      pri := middle;
      r := 0;
    }

    function Value(): Ev
      reads this
    {
      Ev(fd, interests, signal, edge, internal, init, pri, inserted, active, res, ncalls)
    }
  }

  function Ids(s: seq<Event>): (r: seq<Id>)
    ensures |r| == |s| && forall i :: 0 <= i < |s| ==> r[i] == s[i].id
  {
    seq(|s|, i requires 0 <= i < |s| => s[i].id)
  }

  function AllIds(qs: seq<seq<Event>>): seq<seq<Id>> {
    seq(|qs|, i requires 0 <= i < |qs| => Ids(qs[i]))
  }

  function EnqueuedIds(qs: seq<seq<Id>>, i: nat, id: Id): seq<seq<Id>> {
    if i < |qs| then qs[i := qs[i] + [id]] else qs
  }

  function DequeuedIds(qs: seq<seq<Id>>, i: nat, id: Id): seq<seq<Id>> {
    if i < |qs| then qs[i := Remove(qs[i], id)] else qs
  }

  /** TAILQ_REMOVE and LIST_REMOVE. */
  function Without(s: seq<Event>, e: Event): seq<Event> {
    if s == [] then [] else if s[0] == e then s[1..] else [s[0]] + Without(s[1..], e)
  }

  /** Every listed event is the one registered under its address. */
  predicate Registered(s: seq<Event>, events: map<Id, Event>) {
    forall i {:trigger s[i]} :: 0 <= i < |s| ==> s[i].id in events && events[s[i].id] == s[i]
  }

  lemma {:induction false} WithoutIds(s: seq<Event>, e: Event, events: map<Id, Event>)
    requires Registered(s, events) && e.id in events && events[e.id] == e
    ensures Ids(Without(s, e)) == Remove(Ids(s), e.id)
    ensures Registered(Without(s, e), events)
  {
    if s != [] {
      assert Ids(s)[1..] == Ids(s[1..]);
      if s[0] == e {
      } else {
        WithoutIds(s[1..], e, events);
        var w := Without(s[1..], e);
        assert Ids([s[0]] + w) == [s[0].id] + Ids(w);
      }
    }
  }

  /** lu_evmap_io_t. */
  class IoInfo {
    var events: seq<Event>
    var nread: nat
    var nwrite: nat
    var nclose: nat

    /** lu_evmap_io_init. */
    constructor ()
      ensures Value() == IoSlot([], 0, 0, 0)
    {
      events, nread, nwrite, nclose := [], 0, 0, 0;
    }

    function Value(): IoSlot
      reads this
    {
      IoSlot(Ids(events), nread, nwrite, nclose)
    }
  }

  /** lu_evmap_signal_t. */
  class SignalInfo {
    var events: seq<Event>

    constructor ()
      ensures events == []
    {
      events := [];
    }
  }

  function IoValues(io: seq<IoInfo?>): seq<Option<IoSlot>>
    reads io
  {
    seq(|io|, i requires 0 <= i < |io| reads io => if io[i] == null then None else Some(io[i].Value()))
  }

  function SignalValues(sigs: seq<SignalInfo?>): seq<Option<seq<Id>>>
    reads sigs
  {
    seq(|sigs|, i requires 0 <= i < |sigs| reads sigs => if sigs[i] == null then None else Some(Ids(sigs[i].events)))
  }

  ghost predicate Addressed(events: map<Id, Event>) {
    forall id {:trigger events[id]} :: id in events ==> events[id].id == id
  }

  predicate QueuesRegistered(queues: seq<seq<Event>>, events: map<Id, Event>) {
    forall i {:trigger queues[i]} :: 0 <= i < |queues| ==> Registered(queues[i], events)
  }

  /** No two entries share a slot, and the listed events are registered. */
  predicate SlotsRegistered(io: seq<IoInfo?>, events: map<Id, Event>)
    reads io
  {
    && (forall i {:trigger io[i]} :: 0 <= i < |io| && io[i] != null ==> Registered(io[i].events, events))
    && (forall i, j :: 0 <= i < j < |io| && io[i] != null ==> io[i] != io[j])
  }

  predicate SignalsRegistered(sigs: seq<SignalInfo?>, events: map<Id, Event>)
    reads sigs
  {
    && (forall i {:trigger sigs[i]} :: 0 <= i < |sigs| && sigs[i] != null ==> Registered(sigs[i].events, events))
    && (forall i, j :: 0 <= i < j < |sigs| && sigs[i] != null ==> sigs[i] != sigs[j])
  }

  ghost function EventValues(events: map<Id, Event>): map<Id, Ev>
    reads events.Values
  {
    map id | id in events :: events[id].Value()
  }

  class EventBase {
    var queues: seq<seq<Event>>
    var io: seq<IoInfo?>
    var sigs: seq<SignalInfo?>
    var count: int
    var countMax: int
    var activeCount: int
    var activeMax: int
    var running: int
    var continue_: bool
    /** What the backend was told. */
    var ioMask: map<int, set<Interest>>
    var sigMask: set<int>
    /** The storage handed to the base, by address. */
    ghost var events: map<Id, Event>

    constructor (npriorities: nat)
      ensures Valid() && Model() == Base(map[], seq(npriorities, i => []), [], [], 0, 0, 0, 0, 0, false, map[], {})
    {
      queues := seq(npriorities, i => []);
      io, sigs := [], [];
      count, countMax, activeCount, activeMax, running, continue_ := 0, 0, 0, 0, 0, false;
      ioMask, sigMask := map[], {};
      events := map[];
      new;
      assert AllIds(queues) == seq(npriorities, i => []);
      assert EventValues(events) == map[];
    }

    ghost function Model(): Base
      reads this, events.Values, io, sigs
    {
      Base(EventValues(events), AllIds(queues), IoValues(io), SignalValues(sigs),
           count, countMax, activeCount, activeMax, running, continue_, ioMask, sigMask)
    }

    ghost predicate Valid()
      reads this, io, sigs
    {
      Addressed(events) && QueuesRegistered(queues, events)
          && SlotsRegistered(io, events) && SignalsRegistered(sigs, events)
    }

    ghost predicate Has(e: Event)
      reads this
    {
      e.id in events && events[e.id] == e
    }

    /** Only the event `e` changed. */
    twostate lemma OneEvent(new e: Event)
      requires old(allocated(this)) && old(allocated(e)) && events == old(events) && Has(e)
      requires Addressed(events)
      requires forall x {:trigger x in events.Values} :: x in events.Values && x != e ==> x.Value() == old(x.Value())
      ensures EventValues(events) == old(EventValues(events))[e.id := e.Value()]
    {
      forall id | id in events && id != e.id ensures events[id].Value() == old(events[id].Value()) {
        assert events[id] in events.Values;
      }
    }

    /** A queue replaced by another, in terms of ids. */
    lemma QueueIds(i: nat, q: seq<Event>)
      requires i < |queues| && QueuesRegistered(queues, events) && Registered(q, events)
      ensures AllIds(queues[i := q]) == AllIds(queues)[i := Ids(q)]
      ensures |AllIds(queues)| == |queues| && AllIds(queues)[i] == Ids(queues[i]) && Registered(queues[i], events)
      ensures QueuesRegistered(queues[i := q], events)
    {
    }

    lemma Known(e: Event)
      requires Has(e)
      ensures e.id in EventValues(events) && EventValues(events)[e.id] == e.Value()
    {
    }

    lemma PrioritiesIn(i: nat)
      requires Valid() && i < |queues|
      ensures Registered(queues[i], events) && |AllIds(queues)| == |queues|
    {
    }

    lemma Appended(q: seq<Event>, e: Event)
      requires Registered(q, events) && Has(e)
      ensures Registered(q + [e], events) && Ids(q + [e]) == Ids(q) + [e.id]
    {
    }

    /** LU_INCR_EVENT_COUNT. */
    method Incr(internal: bool)
      modifies this`count, this`countMax
      ensures count == (if internal then old(count) else old(count) + 1) && countMax == Max(old(countMax), count)
    {
      count := count + if internal then 0 else 1;
      countMax := Max(countMax, count);
    }

    /** LU_DECR_EVENT_COUNT. */
    method Decr(internal: bool)
      modifies this`count
      ensures count == if internal then old(count) else old(count) - 1
    {
      count := count - if internal then 0 else 1;
    }

    /** TAILQ_INSERT_TAIL on the queue of the event's priority. */
    method Enqueue(e: Event)
      requires Valid() && Has(e) && e.pri < |queues|
      modifies this`queues
      ensures Valid() && AllIds(queues) == EnqueuedIds(old(AllIds(queues)), e.pri, e.id)
      ensures |AllIds(queues)| == |queues| == old(|queues|)
    {
      hide Addressed, QueuesRegistered, SlotsRegistered, SignalsRegistered, EventValues, AllIds, IoValues,
          SignalValues, Registered, Ids;
      PrioritiesIn(e.pri);
      Appended(queues[e.pri], e);
      QueueIds(e.pri, queues[e.pri] + [e]);
      queues := queues[e.pri := queues[e.pri] + [e]];
      PrioritiesIn(e.pri);
    }

    /** TAILQ_REMOVE on it. */
    method Dequeue(e: Event)
      requires Valid() && Has(e) && e.pri < |queues|
      modifies this`queues
      ensures Valid() && AllIds(queues) == DequeuedIds(old(AllIds(queues)), e.pri, e.id)
      ensures |AllIds(queues)| == |queues| == old(|queues|)
    {
      hide Addressed, QueuesRegistered, SlotsRegistered, SignalsRegistered, EventValues, AllIds, IoValues,
          SignalValues, Registered, Ids;
      PrioritiesIn(e.pri);
      WithoutIds(queues[e.pri], e, events);
      QueueIds(e.pri, Without(queues[e.pri], e));
      queues := queues[e.pri := Without(queues[e.pri], e)];
      PrioritiesIn(e.pri);
    }

    /** lu_event_queue_insert_active. */
    method InsertActive(e: Event)
      requires Valid() && Has(e) && e.pri < |queues|
      modifies this`count, this`countMax, this`activeCount, this`activeMax, this`queues, e`active
      ensures Valid() && Model() == EventModel.InsertActive(old(Model()), e.id)
      ensures |queues| == old(|queues|)
    {
      hide Addressed, QueuesRegistered, SlotsRegistered, SignalsRegistered, EventValues, AllIds, IoValues,
          SignalValues, Registered, Ids;
      Known(e);
      PrioritiesIn(e.pri);
      if e.active {
        return;
      }
      Incr(e.internal);
      e.active := true;
      activeCount := activeCount + 1;
      activeMax := Max(activeMax, activeCount);
      Enqueue(e);
      OneEvent(e);
    }

    /** lu_event_queue_remove_active. */
    method RemoveActive(e: Event)
      requires Valid() && Has(e) && e.pri < |queues|
      modifies this`count, this`activeCount, this`queues, e`active
      ensures Valid() && Model() == EventModel.RemoveActive(old(Model()), e.id)
      ensures |queues| == old(|queues|)
    {
      hide Addressed, QueuesRegistered, SlotsRegistered, SignalsRegistered, EventValues, AllIds, IoValues,
          SignalValues, Registered, Ids;
      Known(e);
      PrioritiesIn(e.pri);
      if !e.active {
        return;
      }
      Decr(e.internal);
      e.active := false;
      activeCount := activeCount - 1;
      Dequeue(e);
      OneEvent(e);
    }

    /** lu_event_queue_insert_inserted. */
    method InsertInserted(e: Event)
      requires Valid() && Has(e)
      modifies this`count, this`countMax, e`inserted
      ensures Valid() && Model() == EventModel.InsertInserted(old(Model()), e.id)
    {
      hide Addressed, QueuesRegistered, SlotsRegistered, SignalsRegistered, EventValues, AllIds, IoValues,
          SignalValues, Registered, Ids;
      Known(e);
      if e.inserted {
        return;
      }
      Incr(e.internal);
      e.inserted := true;
      OneEvent(e);
    }

    /** lu_event_queue_remove_inserted. */
    method RemoveInserted(e: Event)
      requires Valid() && Has(e)
      modifies this`count, e`inserted
      ensures Valid() && Model() == EventModel.RemoveInserted(old(Model()), e.id)
    {
      hide Addressed, QueuesRegistered, SlotsRegistered, SignalsRegistered, EventValues, AllIds, IoValues,
          SignalValues, Registered, Ids;
      Known(e);
      if !e.inserted {
        return;
      }
      Decr(e.internal);
      e.inserted := false;
      OneEvent(e);
    }

    // -------------------------------------------------------------------------------------
    // The fd map
    // -------------------------------------------------------------------------------------

    /** lu_evmap_make_space on the fd map. */
    method MakeIoSpace(slot: nat, growOk: bool) returns (ok: bool)
      requires Valid()
      modifies this`io
      ensures Valid() && (ok <==> MakeSpace(old(|io|), slot, growOk).Some?)
      ensures ok ==>
          |io| == MakeSpace(old(|io|), slot, growOk).value && IoValues(io) == Extend(old(IoValues(io)), |io|)
      ensures !ok ==> io == old(io)
      ensures forall i :: 0 <= i < |io| && io[i] != null ==> io[i] in old(io) || fresh(io[i])
    {
      IoLength(io);
      if slot < |io| {
        ExtendNone(IoValues(io));
        return true;
      }
      if slot > INT_MAX / 2 {
        return false;
      }
      var nentries := GrowSize(|io|, slot);
      if nentries > INT_MAX / POINTER_SIZE || !growOk {
        return false;
      }
      ExtendIo(io, nentries);
      io := io + seq(nentries - |io|, i => null);
      ok := true;
    }

    /** GET_IO_SLOT_AND_CTOR, after the map was made large enough. */
    method IoSlotAndCtor(fd: nat, slotOk: bool) returns (ctx: IoInfo?)
      requires Valid() && fd < |io|
      modifies this`io
      ensures Valid() && |io| == old(|io|) && (ctx == null <==> old(io[fd]) == null && !slotOk)
      ensures ctx == null ==> io == old(io)
      ensures ctx != null ==> io[fd] == ctx && (old(io[fd]) != null ==> io == old(io))
      ensures ctx != null && old(io[fd]) == null ==>
                fresh(ctx) && ctx.Value() == IoSlot([], 0, 0, 0)
                    && IoValues(io) == old(IoValues(io))[fd := Some(IoSlot([], 0, 0, 0))]
      ensures forall i :: 0 <= i < |io| && io[i] != null ==> io[i] in old(io) || fresh(io[i])
    {
      ctx := io[fd];
      if ctx == null && slotOk {
        ctx := new IoInfo();
        NewSlot(fd, ctx);
        io := io[fd := ctx];
      }
    }

    lemma NewSlot(fd: nat, ctx: IoInfo)
      requires SlotsRegistered(io, events) && fd < |io| && ctx !in io
      requires ctx.events == [] && ctx.Value() == IoSlot([], 0, 0, 0)
      ensures SlotsRegistered(io[fd := ctx], events)
      ensures |IoValues(io)| == |io| && IoValues(io[fd := ctx]) == IoValues(io)[fd := Some(IoSlot([], 0, 0, 0))]
    {
      assert forall i :: 0 <= i < |io| ==> io[i] in io;
    }

    /** Only the slot of `fd` changed. */
    twostate lemma OneSlot(fd: nat)
      requires old(allocated(this)) && io == old(io) && events == old(events) && fd < |io| && io[fd] != null
      requires old(SlotsRegistered(io, events)) && Registered(io[fd].events, events)
      requires forall i {:trigger io[i]} :: 0 <= i < |io| && i != fd && io[i] != null ==>
          io[i].Value() == old(io[i].Value()) && io[i].events == old(io[i].events)
      ensures SlotsRegistered(io, events)
      ensures |IoValues(io)| == |io| && IoValues(io) == old(IoValues(io))[fd := Some(io[fd].Value())]
    {
    }

    /** The slot of `fd`, as the model sees it. */
    lemma SlotKnown(fd: nat)
      requires Valid() && fd < |io|
      ensures |IoValues(io)| == |io| && IoValues(io)[fd] == if io[fd] == null then None else Some(io[fd].Value())
      ensures io[fd] != null ==> Registered(io[fd].events, events)
      ensures io[fd] != null ==> |Ids(io[fd].events)| == |io[fd].events|
      ensures io[fd] != null && io[fd].events != [] ==>
          Ids(io[fd].events)[0] == io[fd].events[0].id && Has(io[fd].events[0])
      ensures io[fd] != null ==> forall i {:trigger io[i]} :: 0 <= i < |io| && i != fd ==> io[i] != io[fd]
    {
    }

    lemma Prepended(q: seq<Event>, e: Event)
      requires Registered(q, events) && Has(e)
      ensures Registered([e] + q, events) && Ids([e] + q) == [e.id] + Ids(q)
    {
    }

    /** The backend learns of additional interest, if it agrees. */
    method TellBackend(fd: int, res: set<Interest>)
      modifies this`ioMask
      ensures ioMask == old(ioMask)[fd := MaskAt(old(Model()), fd) + res]
    {
      ioMask := ioMask[fd := (if fd in ioMask then ioMask[fd] else {}) + res];
    }

    method UntellBackend(fd: int, res: set<Interest>)
      modifies this`ioMask
      ensures ioMask == old(ioMask)[fd := MaskAt(old(Model()), fd) - res]
    {
      ioMask := ioMask[fd := (if fd in ioMask then ioMask[fd] else {}) - res];
    }

    /** The counts with the event added, and the interests nobody had before. */
    method CountUp(ctx: IoInfo, e: Event) returns (nread: nat, nwrite: nat, nclose: nat, res: set<Interest>)
      ensures nread == ctx.nread + One(Read in e.interests)
      ensures nwrite == ctx.nwrite + One(Write in e.interests)
      ensures nclose == ctx.nclose + One(Closed in e.interests)
      ensures res == OldMask(IoSlot([], nread, nwrite, nclose)) - OldMask(ctx.Value())
    {
      nread, nwrite, nclose := ctx.nread, ctx.nwrite, ctx.nclose;
      res := {};
      if Read in e.interests {
        nread := nread + 1;
        if nread == 1 { res := res + {Read}; }
      }
      if Write in e.interests {
        nwrite := nwrite + 1;
        if nwrite == 1 { res := res + {Write}; }
      }
      if Closed in e.interests {
        nclose := nclose + 1;
        if nclose == 1 { res := res + {Closed}; }
      }
      AddedMask(ctx.Value(), nread, nwrite, nclose, e.interests, res);
    }

    /** The counts are stored and the event goes to the head of the list. */
    method Join(ctx: IoInfo, e: Event, nread: nat, nwrite: nat, nclose: nat)
      requires Valid() && Has(e) && 0 <= e.fd < |io| && io[e.fd] == ctx
      modifies ctx
      ensures Valid() && e.fd < |old(IoValues(io))|
      ensures IoValues(io) ==
          old(IoValues(io))[e.fd := Some(IoSlot([e.id] + old(Ids(ctx.events)), nread, nwrite, nclose))]
    {
      hide Addressed, QueuesRegistered, SlotsRegistered, SignalsRegistered, EventValues, AllIds, IoValues,
          SignalValues, Registered, Ids;
      SlotKnown(e.fd);
      ctx.nread, ctx.nwrite, ctx.nclose := nread, nwrite, nclose;
      Prepended(ctx.events, e);
      ctx.events := [e] + ctx.events;
      OneSlot(e.fd);
    }

    /** The second half of lu_evmap_io_add_, with the slot in place. */
    method ListIo(ctx: IoInfo, e: Event, env: Env) returns (r: int)
      requires Valid() && Has(e) && 0 <= e.fd < |io| && io[e.fd] == ctx
      modifies this`ioMask, ctx
      ensures Valid() && (Model(), r) == Listed(old(Model()), e.id, env) && -1 <= r <= 1
    {
      hide Addressed, QueuesRegistered, SlotsRegistered, SignalsRegistered, EventValues, AllIds, IoValues,
          SignalValues, Registered, Ids, OldMask;
      Known(e);
      SlotKnown(e.fd);
      var nread, nwrite, nclose, res := CountUp(ctx, e);
      if nread > MAX_EVENTS || nwrite > MAX_EVENTS || nclose > MAX_EVENTS {
        return -1;
      }
      if env.debugMode && ctx.events != [] {
        var oldEv := ctx.events[0];
        Known(oldEv);
        if oldEv.edge != e.edge {
          return -1;
        }
      }
      r := Enlist(ctx, e, nread, nwrite, nclose, res, env.backendOk);
    }

    /** The backend is told of the interests nobody had; if it agrees the event joins the list. */
    method Enlist(ctx: IoInfo, e: Event, nread: nat, nwrite: nat, nclose: nat, res: set<Interest>,
        backendOk: bool) returns (r: int)
      requires Valid() && Has(e) && 0 <= e.fd < |io| && io[e.fd] == ctx
      modifies this`ioMask, ctx
      ensures Valid() && e.fd < |old(IoValues(io))| && r == (if res == {} then 0 else if backendOk then 1 else -1)
      ensures r == -1 ==> Model() == old(Model())
      ensures r != -1 ==>
                Model() == old(Model()).(
                  io := old(IoValues(io))[e.fd := Some(IoSlot([e.id] + old(Ids(ctx.events)), nread, nwrite, nclose))],
                  ioMask := if res == {} then old(ioMask) else old(ioMask)[e.fd := MaskAt(old(Model()), e.fd) + res])
    {
      hide Addressed, QueuesRegistered, SlotsRegistered, SignalsRegistered, EventValues, AllIds, IoValues,
          SignalValues, Registered, Ids, OldMask;
      SlotKnown(e.fd);
      r := 0;
      if res != {} {
        if !backendOk {
          return -1;
        }
        TellBackend(e.fd, res);
        r := 1;
      }
      Join(ctx, e, nread, nwrite, nclose);
    }

    /** Grows the map if the entry is beyond its end. */
    method IoRoom(slot: nat, growOk: bool) returns (ok: bool)
      requires Valid()
      modifies this`io
      ensures Valid() && (ok <==> MakeSpace(|old(IoValues(io))|, slot, growOk).Some?)
      ensures ok ==>
          |io| == MakeSpace(|old(IoValues(io))|, slot, growOk).value
              && IoValues(io) == Extend(old(IoValues(io)), |io|)
      ensures !ok ==> io == old(io)
      ensures |old(IoValues(io))| == old(|io|) && (slot < old(|io|) ==> io == old(io))
      ensures forall i :: 0 <= i < |io| && io[i] != null ==> io[i] in old(io) || fresh(io[i])
    {
      IoLength(io);
      ok := true;
      if slot >= |io| {
        ok := MakeIoSpace(slot, growOk);
      } else {
        ExtendNone(IoValues(io));
      }
    }

    /** The slot of the event's fd, in a map that is large enough; null if there is no room for it. */
    method IoContext(e: Event, env: Env) returns (ctx: IoInfo?)
      requires Valid() && Has(e) && 0 <= e.fd
      modifies this`io
      ensures Valid() && e.id in old(Model()).evs && Has(e)
      ensures ctx == null ==> (Model(), -1) == EventModel.IoAdd(old(Model()), e.id, env)
      ensures ctx != null ==>
                && e.fd < |io| && io[e.fd] == ctx
                && e.id in Model().evs && e.fd < |Model().io| && Model().io[e.fd].Some?
                && Model().evs[e.id].fd == e.fd
                && Listed(Model(), e.id, env) == EventModel.IoAdd(old(Model()), e.id, env)
      ensures ctx == null || ctx in old(io) || fresh(ctx)
      ensures forall i :: 0 <= i < |io| && io[i] != null ==> io[i] in old(io) || fresh(io[i])
    {
      hide Listed, OldMask, MakeSpace, Extend, EventModel.IoAdd;
      hide Addressed, QueuesRegistered, SlotsRegistered, SignalsRegistered, EventValues, AllIds, IoValues,
          SignalValues, Registered, Ids;
      Known(e);
      IoLength(io);
      IoAddSplit(Model(), e.id, env);
      var ok := IoRoom(e.fd, env.growOk);
      if !ok {
        return null;
      }
      SlotKnown(e.fd);
      ctx := IoSlotAndCtor(e.fd, env.slotOk);
      if ctx != null { SlotKnown(e.fd); }
    }

    /** lu_evmap_io_add_. */
    method IoAdd(e: Event, env: Env) returns (r: int)
      requires Valid() && Has(e)
      modifies this`io, this`ioMask, io
      ensures Valid() && (Model(), r) == EventModel.IoAdd(old(Model()), e.id, env) && -1 <= r <= 1
      ensures forall i :: 0 <= i < |io| && io[i] != null ==> io[i] in old(io) || fresh(io[i])
    {
      hide Listed, OldMask;
      hide Addressed, QueuesRegistered, SlotsRegistered, SignalsRegistered, EventValues, AllIds, IoValues,
          SignalValues, Registered, Ids;
      Known(e);
      if e.fd < 0 {
        return 0;
      }
      var ctx := IoContext(e, env);
      if ctx == null {
        return -1;
      }
      r := ListIo(ctx, e, env);
    }

    /** The counts without the event, and the interests nobody has any more. */
    method CountDown(ctx: IoInfo, e: Event) returns (nread: nat, nwrite: nat, nclose: nat, res: set<Interest>)
      ensures nread == Less(ctx.nread, Read in e.interests)
      ensures nwrite == Less(ctx.nwrite, Write in e.interests)
      ensures nclose == Less(ctx.nclose, Closed in e.interests)
      ensures res == OldMask(ctx.Value()) - OldMask(IoSlot([], nread, nwrite, nclose))
    {
      nread, nwrite, nclose := ctx.nread, ctx.nwrite, ctx.nclose;
      res := {};
      if Read in e.interests && nread > 0 {
        nread := nread - 1;
        if nread == 0 { res := res + {Read}; }
      }
      if Write in e.interests && nwrite > 0 {
        nwrite := nwrite - 1;
        if nwrite == 0 { res := res + {Write}; }
      }
      if Closed in e.interests && nclose > 0 {
        nclose := nclose - 1;
        if nclose == 0 { res := res + {Closed}; }
      }
      DroppedMask(ctx.Value(), nread, nwrite, nclose, e.interests, res);
    }

    /** The counts are stored and the event leaves the list. */
    method Leave(ctx: IoInfo, e: Event, nread: nat, nwrite: nat, nclose: nat)
      requires Valid() && Has(e) && 0 <= e.fd < |io| && io[e.fd] == ctx
      modifies ctx
      ensures Valid() && e.fd < |old(IoValues(io))|
      ensures IoValues(io) ==
          old(IoValues(io))[e.fd := Some(IoSlot(Remove(old(Ids(ctx.events)), e.id), nread, nwrite, nclose))]
    {
      hide Addressed, QueuesRegistered, SlotsRegistered, SignalsRegistered, EventValues, AllIds, IoValues,
          SignalValues, Registered, Ids;
      SlotKnown(e.fd);
      ctx.nread, ctx.nwrite, ctx.nclose := nread, nwrite, nclose;
      WithoutIds(ctx.events, e, events);
      ctx.events := Without(ctx.events, e);
      OneSlot(e.fd);
    }

    /** lu_evmap_io_del_. */
    method IoDel(e: Event, backendOk: bool) returns (r: int)
      requires Valid() && Has(e)
      modifies this`ioMask, io
      ensures Valid() && (Model(), r) == EventModel.IoDel(old(Model()), e.id, backendOk)
    {
      hide Addressed, QueuesRegistered, SlotsRegistered, SignalsRegistered, EventValues, AllIds, IoValues,
          SignalValues, Registered, Ids, OldMask, Less;
      Known(e);
      IoLength(io);
      if e.fd < 0 {
        return 0;
      }
      if e.fd >= |io| {
        return -1;
      }
      SlotKnown(e.fd);
      var ctx := io[e.fd];
      if ctx == null {
        return -1;
      }
      var nread, nwrite, nclose, res := CountDown(ctx, e);
      MaskOfCounts(nread, nwrite, nclose, Remove(Ids(ctx.events), e.id));
      r := 0;
      if res != {} {
        if backendOk {
          UntellBackend(e.fd, res);
          r := 1;
        } else {
          r := -1;
        }
      }
      Leave(ctx, e, nread, nwrite, nclose);
    }

    // -------------------------------------------------------------------------------------
    // The signal map
    // -------------------------------------------------------------------------------------

    /** lu_evmap_make_space on the signal map. */
    method MakeSignalSpace(slot: nat, growOk: bool) returns (ok: bool)
      requires Valid()
      modifies this`sigs
      ensures Valid() && (ok <==> MakeSpace(old(|sigs|), slot, growOk).Some?)
      ensures ok ==>
          |sigs| == MakeSpace(old(|sigs|), slot, growOk).value
              && SignalValues(sigs) == Extend(old(SignalValues(sigs)), |sigs|)
      ensures !ok ==> sigs == old(sigs)
      ensures forall i :: 0 <= i < |sigs| && sigs[i] != null ==> sigs[i] in old(sigs) || fresh(sigs[i])
    {
      SignalsLength(sigs);
      if slot < |sigs| {
        ExtendNone(SignalValues(sigs));
        return true;
      }
      if slot > INT_MAX / 2 {
        return false;
      }
      var nentries := GrowSize(|sigs|, slot);
      if nentries > INT_MAX / POINTER_SIZE || !growOk {
        return false;
      }
      ExtendSignals(sigs, nentries);
      sigs := sigs + seq(nentries - |sigs|, i => null);
      ok := true;
    }

    /** GET_SIGNAL_SLOT_AND_CTOR, after the map was made large enough. */
    method SignalSlotAndCtor(sig: nat, slotOk: bool) returns (ctx: SignalInfo?)
      requires Valid() && sig < |sigs|
      modifies this`sigs
      ensures Valid() && |sigs| == old(|sigs|) && (ctx == null <==> old(sigs[sig]) == null && !slotOk)
      ensures ctx == null ==> sigs == old(sigs)
      ensures ctx != null ==> sigs[sig] == ctx && (old(sigs[sig]) != null ==> sigs == old(sigs))
      ensures ctx != null && old(sigs[sig]) == null ==>
                fresh(ctx) && ctx.events == [] && SignalValues(sigs) == old(SignalValues(sigs))[sig := Some([])]
      ensures forall i :: 0 <= i < |sigs| && sigs[i] != null ==> sigs[i] in old(sigs) || fresh(sigs[i])
    {
      ctx := sigs[sig];
      if ctx == null && slotOk {
        ctx := new SignalInfo();
        NewSignalSlot(sig, ctx);
        sigs := sigs[sig := ctx];
      }
    }

    lemma NewSignalSlot(sig: nat, ctx: SignalInfo)
      requires SignalsRegistered(sigs, events) && sig < |sigs| && ctx !in sigs && ctx.events == []
      ensures SignalsRegistered(sigs[sig := ctx], events)
      ensures |SignalValues(sigs)| == |sigs| && SignalValues(sigs[sig := ctx]) == SignalValues(sigs)[sig := Some([])]
    {
      assert forall i :: 0 <= i < |sigs| ==> sigs[i] in sigs;
    }

    twostate lemma OneSignal(sig: nat)
      requires old(allocated(this)) && sigs == old(sigs) && events == old(events) && sig < |sigs| && sigs[sig] != null
      requires old(SignalsRegistered(sigs, events)) && Registered(sigs[sig].events, events)
      requires forall i {:trigger sigs[i]} :: 0 <= i < |sigs| && i != sig && sigs[i] != null ==>
          sigs[i].events == old(sigs[i].events)
      ensures SignalsRegistered(sigs, events)
      ensures |SignalValues(sigs)| == |sigs|
      ensures SignalValues(sigs) == old(SignalValues(sigs))[sig := Some(Ids(sigs[sig].events))]
    {
    }

    lemma SignalKnown(sig: nat)
      requires Valid() && sig < |sigs|
      ensures |SignalValues(sigs)| == |sigs|
      ensures SignalValues(sigs)[sig] == if sigs[sig] == null then None else Some(Ids(sigs[sig].events))
      ensures sigs[sig] != null ==>
          Registered(sigs[sig].events, events) && |Ids(sigs[sig].events)| == |sigs[sig].events|
      ensures sigs[sig] != null ==> forall i {:trigger sigs[i]} :: 0 <= i < |sigs| && i != sig ==>
          sigs[i] != sigs[sig]
    {
    }

    /** The event goes to the head of its signal's list. */
    method JoinSignal(ctx: SignalInfo, e: Event)
      requires Valid() && Has(e) && 0 <= e.fd < |sigs| && sigs[e.fd] == ctx
      modifies ctx
      ensures Valid() && e.fd < |old(SignalValues(sigs))|
      ensures SignalValues(sigs) == old(SignalValues(sigs))[e.fd := Some([e.id] + old(Ids(ctx.events)))]
    {
      hide Addressed, QueuesRegistered, SlotsRegistered, SignalsRegistered, EventValues, AllIds, IoValues,
          SignalValues, Registered, Ids;
      SignalKnown(e.fd);
      Prepended(ctx.events, e);
      ctx.events := [e] + ctx.events;
      OneSignal(e.fd);
    }

    /** LIST_REMOVE on a signal's list. */
    method LeaveSignal(ctx: SignalInfo, e: Event)
      requires Valid() && Has(e) && 0 <= e.fd < |sigs| && sigs[e.fd] == ctx
      modifies ctx
      ensures Valid() && e.fd < |old(SignalValues(sigs))| && Ids(ctx.events) == Remove(old(Ids(ctx.events)), e.id)
      ensures SignalValues(sigs) == old(SignalValues(sigs))[e.fd := Some(Remove(old(Ids(ctx.events)), e.id))]
    {
      hide Addressed, QueuesRegistered, SlotsRegistered, SignalsRegistered, EventValues, AllIds, IoValues,
          SignalValues, Registered, Ids;
      SignalKnown(e.fd);
      WithoutIds(ctx.events, e, events);
      ctx.events := Without(ctx.events, e);
      OneSignal(e.fd);
    }

    /** Grows the map if the entry is beyond its end. */
    method SignalRoom(slot: nat, growOk: bool) returns (ok: bool)
      requires Valid()
      modifies this`sigs
      ensures Valid() && (ok <==> MakeSpace(|old(SignalValues(sigs))|, slot, growOk).Some?)
      ensures ok ==>
          |sigs| == MakeSpace(|old(SignalValues(sigs))|, slot, growOk).value
              && SignalValues(sigs) == Extend(old(SignalValues(sigs)), |sigs|)
      ensures !ok ==> sigs == old(sigs)
      ensures |old(SignalValues(sigs))| == old(|sigs|) && (slot < old(|sigs|) ==> sigs == old(sigs))
      ensures forall i :: 0 <= i < |sigs| && sigs[i] != null ==> sigs[i] in old(sigs) || fresh(sigs[i])
    {
      SignalsLength(sigs);
      ok := true;
      if slot >= |sigs| {
        ok := MakeSignalSpace(slot, growOk);
      } else {
        ExtendNone(SignalValues(sigs));
      }
    }

    /** The slot of the event's signal, in a map that is large enough; null if there is no room for it. */
    method SignalContext(e: Event, env: Env) returns (ctx: SignalInfo?)
      requires Valid() && Has(e) && 0 <= e.fd < NSIG
      modifies this`sigs
      ensures Valid() && e.id in old(Model()).evs && Has(e)
      ensures ctx == null ==> (Model(), -1) == EventModel.SignalAdd(old(Model()), e.id, env)
      ensures ctx != null ==>
                && e.fd < |sigs| && sigs[e.fd] == ctx
                && e.id in Model().evs && e.fd < |Model().sigs| && Model().sigs[e.fd].Some?
                && Model().evs[e.id].fd == e.fd
                && ListedSignal(Model(), e.id, env) == EventModel.SignalAdd(old(Model()), e.id, env)
      ensures ctx == null || ctx in old(sigs) || fresh(ctx)
      ensures forall i :: 0 <= i < |sigs| && sigs[i] != null ==> sigs[i] in old(sigs) || fresh(sigs[i])
    {
      hide Addressed, QueuesRegistered, SlotsRegistered, SignalsRegistered, EventValues, AllIds, IoValues,
          SignalValues, Registered, Ids, MakeSpace, Extend, ListedSignal, EventModel.SignalAdd;
      Known(e);
      SignalsLength(sigs);
      SignalAddSplit(Model(), e.id, env);
      var ok := SignalRoom(e.fd, env.growOk);
      if !ok {
        return null;
      }
      SignalKnown(e.fd);
      ctx := SignalSlotAndCtor(e.fd, env.slotOk);
      if ctx != null { SignalKnown(e.fd); }
    }

    /** lu_evmap_signal_add_. */
    method SignalAdd(e: Event, env: Env) returns (r: int)
      requires Valid() && Has(e)
      modifies this`sigs, this`sigMask, sigs
      ensures Valid() && (Model(), r) == EventModel.SignalAdd(old(Model()), e.id, env) && (r == -1 || r == 1)
      ensures forall i :: 0 <= i < |sigs| && sigs[i] != null ==> sigs[i] in old(sigs) || fresh(sigs[i])
    {
      hide Addressed, QueuesRegistered, SlotsRegistered, SignalsRegistered, EventValues, AllIds, IoValues,
          SignalValues, Registered, Ids, ListedSignal;
      Known(e);
      if e.fd < 0 || e.fd >= NSIG {
        return -1;
      }
      var ctx := SignalContext(e, env);
      if ctx == null {
        return -1;
      }
      r := ListSignal(ctx, e, env);
    }

    /** The second half of lu_evmap_signal_add_, with the slot in place. */
    method ListSignal(ctx: SignalInfo, e: Event, env: Env) returns (r: int)
      requires Valid() && Has(e) && 0 <= e.fd < |sigs| && sigs[e.fd] == ctx
      modifies this`sigMask, ctx
      ensures Valid() && (Model(), r) == ListedSignal(old(Model()), e.id, env) && (r == -1 || r == 1)
    {
      hide Addressed, QueuesRegistered, SlotsRegistered, SignalsRegistered, EventValues, AllIds, IoValues,
          SignalValues, Registered, Ids;
      Known(e);
      SignalKnown(e.fd);
      assert Ids(ctx.events) == [] <==> ctx.events == [];
      if ctx.events == [] {
        if !env.backendOk {
          return -1;
        }
      }
      sigMask := sigMask + {e.fd};
      JoinSignal(ctx, e);
      r := 1;
    }

    /** lu_evmap_signal_del_. */
    method SignalDel(e: Event, backendOk: bool) returns (r: int)
      requires Valid() && Has(e)
      modifies this`sigMask, sigs
      ensures Valid() && (Model(), r) == EventModel.SignalDel(old(Model()), e.id, backendOk)
    {
      hide Addressed, QueuesRegistered, SlotsRegistered, SignalsRegistered, EventValues, AllIds, IoValues,
          SignalValues, Registered, Ids;
      Known(e);
      SignalsLength(sigs);
      var sig := e.fd;
      if sig < 0 || sig >= |sigs| {
        return -1;
      }
      SignalKnown(sig);
      var ctx := sigs[sig];
      if ctx == null {
        return -1;
      }
      LeaveSignal(ctx, e);
      SignalKnown(sig);
      if ctx.events == [] {
        if !backendOk {
          return -1;
        }
        sigMask := sigMask - {sig};
      }
      r := 1;
    }

    // -------------------------------------------------------------------------------------
    // The operations on events
    // -------------------------------------------------------------------------------------

    /** The event goes on the list of its fd or signal and is marked inserted. */
    method Register(e: Event, env: Env) returns (res: int)
      requires Valid() && Has(e)
      modifies this, io, sigs, e`inserted
      ensures Valid() && events == old(events) && (Model(), res) == EventModel.Enlist(old(Model()), e.id, env)
      ensures Has(e) && (res == 0 || res == -1) && |queues| == old(|queues|)
      ensures forall i :: 0 <= i < |io| && io[i] != null ==> io[i] in old(io) || fresh(io[i])
      ensures forall i :: 0 <= i < |sigs| && sigs[i] != null ==> sigs[i] in old(sigs) || fresh(sigs[i])
    {
      hide Addressed, QueuesRegistered, SlotsRegistered, SignalsRegistered, EventValues, AllIds, IoValues,
          SignalValues, Registered, Ids;
      hide EventModel.IoAdd, EventModel.SignalAdd;
      Known(e);
      if e.interests != {} {
        res := IoAdd(e, env);
      } else {
        res := SignalAdd(e, env);
      }
      Known(e);
      if res != -1 {
        InsertInserted(e);
      }
      if res == 1 {
        res := 0;
      }
    }

    /** lu_event_add_nolock_. */
    method Add(e: Event, timeout: bool, env: Env) returns (res: int)
      requires Valid() && Has(e) && e.pri < |queues|
      modifies this, io, sigs, e`inserted, e`active
      ensures Valid() && events == old(events)
      ensures |queues| == old(|queues|) && (Model(), res) == EventModel.Add(old(Model()), e.id, timeout, env)
      ensures forall i :: 0 <= i < |io| && io[i] != null ==> io[i] in old(io) || fresh(io[i])
      ensures forall i :: 0 <= i < |sigs| && sigs[i] != null ==> sigs[i] in old(sigs) || fresh(sigs[i])
    {
      hide Addressed, QueuesRegistered, SlotsRegistered, SignalsRegistered, EventValues, AllIds, IoValues,
          SignalValues, Registered, Ids;
      hide EventModel.Enlist;
      Known(e);
      res := 0;
      if timeout && !env.heapOk {
        return -1;
      }
      if (e.interests != {} || e.signal) && !e.inserted && !e.active {
        res := Register(e, env);
      }
      Known(e);
      if res != -1 && timeout {
        if e.active && TimedOut in e.res {
          RemoveActive(e);
        }
      }
    }

    /** lu_event_del_nolock_. */
    method Del(e: Event, backendOk: bool) returns (res: int)
      requires Valid() && Has(e) && e.pri < |queues|
      modifies this, io, sigs, e`inserted, e`active
      ensures Valid() && events == old(events) && io == old(io) && sigs == old(sigs)
      ensures |queues| == old(|queues|) && (Model(), res) == EventModel.Del(old(Model()), e.id, backendOk)
    {
      hide Addressed, QueuesRegistered, SlotsRegistered, SignalsRegistered, EventValues, AllIds, IoValues,
          SignalValues, Registered, Ids;
      hide EventModel.IoDel, EventModel.SignalDel;
      Known(e);
      res := 0;
      if e.active {
        RemoveActive(e);
      }
      Known(e);
      if e.inserted {
        RemoveInserted(e);
        Known(e);
        if e.interests != {} {
          res := IoDel(e, backendOk);
        } else {
          res := SignalDel(e, backendOk);
        }
        if res == 1 {
          res := 0;
        }
      }
    }

    /** lu_event_callback_activate_nolock_. */
    method Activate(e: Event) returns (r: int)
      requires Valid() && Has(e) && e.pri < |queues|
      modifies this, e`active
      ensures Valid() && events == old(events) && io == old(io) && sigs == old(sigs)
      ensures (Model(), r) == EventModel.Activate(old(Model()), e.id)
      ensures |queues| == old(|queues|)
    {
      hide Addressed, QueuesRegistered, SlotsRegistered, SignalsRegistered, EventValues, AllIds, IoValues,
          SignalValues, Registered, Ids;
      Known(e);
      if e.active {
        return 0;
      }
      InsertActive(e);
      r := 1;
    }

    /** What the event itself records. */
    method Record(e: Event, res: set<What>, ncalls: int)
      requires Valid() && Has(e)
      modifies e`res, e`ncalls
      ensures Valid() && e.id in old(Model()).evs
      ensures Model() == old(Model()).(
                evs := old(Model()).evs[e.id :=
                         old(e.Value()).(res := res, ncalls := if e.signal then ncalls else old(e.ncalls))])
    {
      hide Addressed, QueuesRegistered, SlotsRegistered, SignalsRegistered, EventValues, AllIds, IoValues,
          SignalValues, Registered, Ids;
      Known(e);
      e.res := res;
      if e.signal {
        e.ncalls := ncalls;
      }
      OneEvent(e);
    }

    method SetContinue()
      requires Valid()
      modifies this`continue_
      ensures Valid() && Model() == old(Model()).(continue_ := true)
    {
      hide Addressed, QueuesRegistered, SlotsRegistered, SignalsRegistered, EventValues, AllIds, IoValues,
          SignalValues, Registered, Ids;
      continue_ := true;
    }

    lemma InModel(e: Event)
      requires Valid() && Has(e)
      ensures e.id in Model().evs && Model().evs[e.id] == e.Value()
      ensures Model().running == running && Model().continue_ == continue_
    {
      Known(e);
    }

    /** What lu_event_active_nolock_ records about an event that is not active yet. */
    method Note(e: Event, res: set<What>, ncalls: int)
      requires Valid() && Has(e)
      modifies this`continue_, e`res, e`ncalls
      ensures Valid()
      ensures Model() == old(Model()).(
                evs := old(Model()).evs[e.id :=
                         old(e.Value()).(res := res, ncalls := if old(e.signal) then ncalls else old(e.ncalls))],
                continue_ := old(continue_) || old(e.pri) < running)
    {
      hide Valid, Model;
      InModel(e);
      if e.pri < running {
        SetContinue();
      }
      Record(e, res, ncalls);
    }

    /** lu_event_active_nolock_. */
    method Active(e: Event, res: set<What>, ncalls: int)
      requires Valid() && Has(e) && e.pri < |queues|
      modifies this, e`active, e`res, e`ncalls
      ensures Valid() && events == old(events) && Model() == EventModel.Active(old(Model()), e.id, res, ncalls)
      ensures |queues| == old(|queues|)
    {
      hide Addressed, QueuesRegistered, SlotsRegistered, SignalsRegistered, EventValues, AllIds, IoValues,
          SignalValues, Registered, Ids;
      Known(e);
      if e.active {
        e.res := e.res + res;
        OneEvent(e);
        return;
      }
      Note(e, res, ncalls);
      var r := Activate(e);
    }

    /** lu_event_priority_set. */
    method PrioritySet(e: Event, pri: int) returns (r: int)
      requires Valid() && Has(e)
      modifies e`pri
      ensures Valid() && (Model(), r) == EventModel.PrioritySet(old(Model()), e.id, pri)
    {
      hide Addressed, QueuesRegistered, SlotsRegistered, SignalsRegistered, EventValues, AllIds, IoValues,
          SignalValues, Registered, Ids;
      Known(e);
      QueueCount();
      if e.active {
        return -1;
      }
      if pri < 0 || pri >= |queues| {
        return -1;
      }
      e.pri := pri;
      OneEvent(e);
      r := 0;
    }

    lemma QueueCount()
      ensures |AllIds(queues)| == |queues|
    {
    }

    /** lu_event_callback_cancel_nolock_. */
    method Cancel(e: Event, backendOk: bool) returns (r: int)
      requires Valid() && Has(e) && e.pri < |queues|
      modifies this, io, sigs, e`inserted, e`active
      ensures Valid() && events == old(events) && io == old(io) && sigs == old(sigs)
      ensures (Model(), r) == EventModel.Cancel(old(Model()), e.id, backendOk)
      ensures |queues| == old(|queues|)
    {
      hide Addressed, QueuesRegistered, SlotsRegistered, SignalsRegistered, EventValues, AllIds, IoValues,
          SignalValues, Registered, Ids;
      hide EventModel.Del;
      Known(e);
      r := 0;
      if e.init {
        r := Del(e, backendOk);
      } else if e.active {
        RemoveActive(e);
      }
    }

    /** lu_event_assign on storage the base has not seen yet. */
    method NewEvent(id: Id, raw: Raw, interests: set<Interest>, signal: bool, edge: bool, internal: bool,
        init: bool) returns (e: Event, r: int)
      requires Valid() && id !in events
      modifies this`events
      ensures Valid() && fresh(e) && Has(e) && e.id == id && events == old(events)[id := e]
      ensures Model() == EventModel.Assign(old(Model()), id, raw, interests, signal, edge, internal, init)
      ensures r == AssignResult(interests, signal)
    {
      hide EventValues, AllIds, IoValues, SignalValues;
      QueueCount();
      e := new Event(id, raw, interests, signal, edge, internal, init, |queues| / 2);
      r := if signal && interests != {} then -1 else 0;
      MoreEvents(e);
      events := events[id := e];
    }

    lemma MoreEvents(e: Event)
      requires Valid() && e.id !in events
      ensures var events' := events[e.id := e];
              && Addressed(events') && QueuesRegistered(queues, events')
              && SlotsRegistered(io, events') && SignalsRegistered(sigs, events')
              && EventValues(events') == EventValues(events)[e.id := e.Value()] && e.id !in EventValues(events)
    {
      hide Registered;
      var events' := events[e.id := e];
      forall i {:trigger queues[i]} | 0 <= i < |queues| ensures Registered(queues[i], events') {
        StillRegistered(queues[i], events, e);
      }
      forall i {:trigger io[i]} | 0 <= i < |io| && io[i] != null ensures Registered(io[i].events, events') {
        StillRegistered(io[i].events, events, e);
      }
      forall i {:trigger sigs[i]} | 0 <= i < |sigs| && sigs[i] != null ensures Registered(sigs[i].events, events') {
        StillRegistered(sigs[i].events, events, e);
      }
    }

    /** lu_event_assign on storage the base knows; `raw` does not matter then. */
    method Assign(e: Event, raw: Raw, interests: set<Interest>, signal: bool, edge: bool, internal: bool, init: bool)
      returns (r: int)
      requires Valid() && Has(e)
      modifies e
      ensures Valid() && r == AssignResult(interests, signal)
      ensures Model() == EventModel.Assign(old(Model()), e.id, raw, interests, signal, edge, internal, init)
    {
      hide Addressed, QueuesRegistered, SlotsRegistered, SignalsRegistered, EventValues, AllIds, IoValues,
          SignalValues, Registered, Ids;
      QueueCount();
      Known(e);
      r := e.Reassign(interests, signal, edge, internal, init, |queues| / 2);
      OneEvent(e);
    }
  }

  /** What the model does with an event once its signal's slot is in place. */
  function ListedSignal(b: Base, id: Id, env: Env): (Base, int)
    requires id in b.evs && 0 <= b.evs[id].fd < |b.sigs| && b.sigs[b.evs[id].fd].Some?
  {
    var sig := b.evs[id].fd;
    var s := b.sigs[sig].value;
    if s == [] && !env.backendOk then (b, -1)
    else (b.(sigs := b.sigs[sig := Some([id] + s)], sigMask := b.sigMask + {sig}), 1)
  }

  lemma SignalAddSplit(b: Base, id: Id, env: Env)
    requires id in b.evs && 0 <= b.evs[id].fd < NSIG
    ensures var sig := b.evs[id].fd;
            match MakeSpace(|b.sigs|, sig, env.growOk)
            case None => EventModel.SignalAdd(b, id, env) == (b, -1)
            case Some(n) =>
              var grown := Extend(b.sigs, n);
              if grown[sig].None? && !env.slotOk then EventModel.SignalAdd(b, id, env) == (b.(sigs := grown), -1)
              else
                var sigs := if grown[sig].None? then grown[sig := Some([])] else grown;
                EventModel.SignalAdd(b, id, env) == ListedSignal(b.(sigs := sigs), id, env)
  {
    var sig := b.evs[id].fd;
    var m := MakeSpace(|b.sigs|, sig, env.growOk);
    if m.Some? {
      var grown := Extend(b.sigs, m.value);
      var s := if grown[sig].None? then [] else grown[sig].value;
      Overwritten(grown, sig, Some(s), Some([id] + s));
    }
  }

  lemma StillRegistered(s: seq<Event>, events: map<Id, Event>, e: Event)
    requires Registered(s, events) && e.id !in events
    ensures Registered(s, events[e.id := e])
  {
  }

  lemma Overwritten<T>(s: seq<T>, i: nat, x: T, y: T)
    requires i < |s|
    ensures s[i := x][i := y] == s[i := y] && s[i := s[i]] == s
  {
  }

  lemma SignalsLength(sigs: seq<SignalInfo?>)
    ensures |SignalValues(sigs)| == |sigs|
  {
  }

  lemma ExtendSignals(sigs: seq<SignalInfo?>, n: nat)
    requires |sigs| <= n
    ensures |SignalValues(sigs)| == |sigs|
    ensures SignalValues(sigs + seq(n - |sigs|, i => null)) == Extend(SignalValues(sigs), n)
  {
  }

  lemma MaskOfCounts(nread: nat, nwrite: nat, nclose: nat, s: seq<Id>)
    ensures OldMask(IoSlot(s, nread, nwrite, nclose)) == OldMask(IoSlot([], nread, nwrite, nclose))
  {
  }

  /** The interests whose count became 0 are those the new mask lacks. */
  lemma DroppedMask(s: IoSlot, nread: nat, nwrite: nat, nclose: nat, wants: set<Interest>, res: set<Interest>)
    requires nread == Less(s.nread, Read in wants)
    requires nwrite == Less(s.nwrite, Write in wants) && nclose == Less(s.nclose, Closed in wants)
    requires Read in res <==> Read in wants && s.nread > 0 && nread == 0
    requires Write in res <==> Write in wants && s.nwrite > 0 && nwrite == 0
    requires Closed in res <==> Closed in wants && s.nclose > 0 && nclose == 0
    ensures res == OldMask(s) - OldMask(IoSlot([], nread, nwrite, nclose))
  {
    var untold := OldMask(s) - OldMask(IoSlot([], nread, nwrite, nclose));
    forall i ensures i in res <==> i in untold {
      match i
      case Read =>
      case Write =>
      case Closed =>
    }
  }

  /** What the model does with an event once its slot is in place. */
  function Listed(b: Base, id: Id, env: Env): (Base, int)
    requires id in b.evs && 0 <= b.evs[id].fd < |b.io| && b.io[b.evs[id].fd].Some?
  {
    var e := b.evs[id];
    var s := b.io[e.fd].value;
    var nread := s.nread + One(Read in e.interests);
    var nwrite := s.nwrite + One(Write in e.interests);
    var nclose := s.nclose + One(Closed in e.interests);
    var told := OldMask(IoSlot([], nread, nwrite, nclose)) - OldMask(s);
    if nread > MAX_EVENTS || nwrite > MAX_EVENTS || nclose > MAX_EVENTS then (b, -1)
    else if env.debugMode && s.events != [] && s.events[0] in b.evs && b.evs[s.events[0]].edge != e.edge then (b, -1)
    else if told != {} && !env.backendOk then (b, -1)
    else
      (b.(io := b.io[e.fd := Some(IoSlot([id] + s.events, nread, nwrite, nclose))],
          ioMask := if told == {} then b.ioMask else b.ioMask[e.fd := MaskAt(b, e.fd) + told]),
       if told != {} then 1 else 0)
  }

  /** The model's addition in two halves: the slot, then the list. */
  lemma IoAddSplit(b: Base, id: Id, env: Env)
    requires id in b.evs && 0 <= b.evs[id].fd
    ensures var fd := b.evs[id].fd;
            match MakeSpace(|b.io|, fd, env.growOk)
            case None => EventModel.IoAdd(b, id, env) == (b, -1)
            case Some(n) =>
              var grown := Extend(b.io, n);
              if grown[fd].None? && !env.slotOk then EventModel.IoAdd(b, id, env) == (b.(io := grown), -1)
              else
                var io := if grown[fd].None? then grown[fd := Some(IoSlot([], 0, 0, 0))] else grown;
                EventModel.IoAdd(b, id, env) == Listed(b.(io := io), id, env)
  {
    var fd := b.evs[id].fd;
    var m := MakeSpace(|b.io|, fd, env.growOk);
    if m.Some? && !(Extend(b.io, m.value)[fd].None? && !env.slotOk) {
      IoAddListed(b, id, env, m.value);
      hide Listed, EventModel.IoAdd;
    }
  }

  lemma IoAddListed(b: Base, id: Id, env: Env, n: nat)
    requires id in b.evs && 0 <= b.evs[id].fd < n && MakeSpace(|b.io|, b.evs[id].fd, env.growOk) == Some(n)
    requires |b.io| <= n && !(Extend(b.io, n)[b.evs[id].fd].None? && !env.slotOk)
    ensures var fd, grown := b.evs[id].fd, Extend(b.io, n);
            EventModel.IoAdd(b, id, env) ==
                Listed(b.(io := if grown[fd].None? then grown[fd := Some(IoSlot([], 0, 0, 0))] else grown), id, env)
  {
    hide MakeSpace, OldMask, Extend;
    var e, fd, grown := b.evs[id], b.evs[id].fd, Extend(b.io, n);
    var s := if grown[fd].None? then IoSlot([], 0, 0, 0) else grown[fd].value;
    var s' := IoSlot([id] + s.events, s.nread + One(Read in e.interests), s.nwrite + One(Write in e.interests),
        s.nclose + One(Closed in e.interests));
    Overwritten(grown, fd, Some(s), Some(s'));
  }

  /** The interests whose count became 1 are those the old mask lacked. */
  lemma AddedMask(s: IoSlot, nread: nat, nwrite: nat, nclose: nat, wants: set<Interest>, res: set<Interest>)
    requires nread == s.nread + One(Read in wants)
    requires nwrite == s.nwrite + One(Write in wants) && nclose == s.nclose + One(Closed in wants)
    requires Read in res <==> Read in wants && nread == 1
    requires Write in res <==> Write in wants && nwrite == 1
    requires Closed in res <==> Closed in wants && nclose == 1
    ensures res == OldMask(IoSlot([], nread, nwrite, nclose)) - OldMask(s)
  {
    var told := OldMask(IoSlot([], nread, nwrite, nclose)) - OldMask(s);
    forall i ensures i in res <==> i in told {
      match i
      case Read =>
      case Write =>
      case Closed =>
    }
  }

  /** The size to which the map grows, by doubling. */
  method GrowSize(n: nat, slot: nat) returns (m: nat)
    ensures m == Doubled(if n == 0 then 32 else n, slot)
  {
    m := if n == 0 then 32 else n;
    while m <= slot
      invariant 0 < m && Doubled(m, slot) == Doubled(if n == 0 then 32 else n, slot)
      decreases slot - m
    {
      m := m * 2;
    }
  }

  lemma IoLength(io: seq<IoInfo?>)
    ensures |IoValues(io)| == |io|
  {
  }

  lemma ExtendNone<T>(s: seq<Option<T>>)
    ensures Extend(s, |s|) == s
  {
  }

  lemma ExtendIo(io: seq<IoInfo?>, n: nat)
    requires |io| <= n
    ensures |IoValues(io)| == |io| && IoValues(io + seq(n - |io|, i => null)) == Extend(IoValues(io), n)
  {
  }
}
