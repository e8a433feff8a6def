/**
 Every operation on events keeps the invariant of EventModel.dfy.
 */
module EventInvariant {
  import opened EventModel

  // ---------------------------------------------------------------------------------------
  // Flags that an invariant does not look at
  // ---------------------------------------------------------------------------------------

  /** The same events are inserted, with the same interests on the same fd. */
  ghost predicate SameInserted(evs: map<Id, Ev>, evs': map<Id, Ev>) {
    && (forall id :: id in evs && evs[id].inserted ==> id in evs' && evs'[id].inserted)
    && (forall id :: id in evs' && evs'[id].inserted ==>
          && id in evs && evs[id].inserted
          && evs[id].interests == evs'[id].interests && evs[id].fd == evs'[id].fd
          && evs[id].signal == evs'[id].signal && evs[id].internal == evs'[id].internal)
  }

  /** The same events are active, with the same priorities. */
  ghost predicate SameActive(evs: map<Id, Ev>, evs': map<Id, Ev>) {
    && (forall id :: id in evs && evs[id].active ==> id in evs' && evs'[id].active)
    && (forall id :: id in evs' && evs'[id].active ==>
          id in evs && evs[id].active && evs[id].pri == evs'[id].pri && evs[id].internal == evs'[id].internal)
  }

  lemma SlotFrame(evs: map<Id, Ev>, evs': map<Id, Ev>, fd: nat, s: IoSlot, mask: set<Interest>)
    requires SlotOk(evs, fd, s, mask)
    requires forall id :: id in s.events ==>
               id in evs' && evs'[id].inserted && evs'[id].interests == evs[id].interests && evs'[id].fd == fd
    requires forall id :: id in evs' && evs'[id].inserted && evs'[id].interests != {} && evs'[id].fd == fd ==>
        id in s.events
    ensures SlotOk(evs', fd, s, mask)
  {
    WantingFrame(evs, evs', s.events, Read);
    WantingFrame(evs, evs', s.events, Write);
    WantingFrame(evs, evs', s.events, Closed);
  }

  lemma MapsFrame(b: Base, b': Base)
    requires MapsOk(b) && SameInserted(b.evs, b'.evs)
    requires b'.io == b.io && b'.sigs == b.sigs && b'.ioMask == b.ioMask && b'.sigMask == b.sigMask
    ensures MapsOk(b')
  {
    forall fd: nat {:trigger SlotAt(b', fd)} ensures SlotOk(b'.evs, fd, SlotAt(b', fd), MaskAt(b', fd)) {
      assert SlotOk(b.evs, fd, SlotAt(b, fd), MaskAt(b, fd));
      SlotFrame(b.evs, b'.evs, fd, SlotAt(b, fd), MaskAt(b, fd));
    }
    forall sig: nat {:trigger SignalsAt(b', sig)} ensures SignalListOk(b'.evs, sig, SignalsAt(b', sig),
        sig in b'.sigMask) {
      assert SignalListOk(b.evs, sig, SignalsAt(b, sig), sig in b.sigMask);
    }
  }

  lemma QueuesFrame(b: Base, b': Base)
    requires QueuesOk(b) && SameActive(b.evs, b'.evs)
    requires b'.queues == b.queues && b'.activeCount == b.activeCount && b'.activeMax == b.activeMax
    requires forall id :: id in b'.evs ==> b'.evs[id].pri < |b.queues|
    ensures QueuesOk(b')
  {
  }

  lemma MaskFrame(b: Base, b': Base)
    requires MaskExact(b) && b'.io == b.io && b'.sigs == b.sigs && b'.ioMask == b.ioMask && b'.sigMask == b.sigMask
    ensures MaskExact(b')
  {
    forall fd: nat {:trigger SlotAt(b', fd)} ensures MaskAt(b', fd) == OldMask(SlotAt(b', fd)) {
      assert SlotAt(b', fd) == SlotAt(b, fd);
    }
    forall sig: nat {:trigger SignalsAt(b', sig)} ensures sig in b'.sigMask ==> SignalsAt(b', sig) != [] {
      assert SignalsAt(b', sig) == SignalsAt(b, sig);
    }
  }

  /** Nothing but the maps and the backend differs. */
  ghost predicate SameButMaps(b: Base, b': Base) {
    b' == b.(io := b'.io, sigs := b'.sigs, ioMask := b'.ioMask, sigMask := b'.sigMask)
  }

  // ---------------------------------------------------------------------------------------
  // Counters
  // ---------------------------------------------------------------------------------------

  lemma CountsFrame(evs: map<Id, Ev>, evs': map<Id, Ev>)
    ensures SameInserted(evs, evs') ==> InsertedEvents(evs') == InsertedEvents(evs)
    ensures SameActive(evs, evs') ==> ActiveEvents(evs') == ActiveEvents(evs)
  {
  }

  lemma ActiveEventsFlip(evs: map<Id, Ev>, id: Id)
    requires id in evs && !evs[id].active
    ensures var evs' := evs[id := evs[id].(active := true)];
            |ActiveEvents(evs')| == |ActiveEvents(evs)| + One(!evs[id].internal)
  {
    var evs' := evs[id := evs[id].(active := true)];
    assert ActiveEvents(evs') == ActiveEvents(evs) + if evs[id].internal then {} else {id};
  }

  lemma InsertedEventsFlip(evs: map<Id, Ev>, id: Id)
    requires id in evs && !evs[id].inserted
    ensures var evs' := evs[id := evs[id].(inserted := true)];
            |InsertedEvents(evs')| == |InsertedEvents(evs)| + One(!evs[id].internal)
  {
    var evs' := evs[id := evs[id].(inserted := true)];
    assert InsertedEvents(evs') == InsertedEvents(evs) + if evs[id].internal then {} else {id};
  }

  // ---------------------------------------------------------------------------------------
  // The active queues
  // ---------------------------------------------------------------------------------------

  lemma InsertActiveQueues(b: Base, id: Id)
    requires QueuesOk(b) && id in b.evs && !b.evs[id].active
    ensures QueuesOk(InsertActive(b, id))
  {
    var e := b.evs[id];
    AppendNoDup(b.queues[e.pri], id);
    TotalUpdate(b.queues, e.pri, b.queues[e.pri] + [id]);
  }

  lemma InsertActiveCount(b: Base, id: Id)
    requires CountOk(b) && id in b.evs && b.evs[id].pri < |b.queues| && !b.evs[id].active
    ensures CountOk(InsertActive(b, id))
  {
    var b' := InsertActive(b, id);
    assert b'.evs == b.evs[id := b.evs[id].(active := true)];
    ActiveEventsFlip(b.evs, id);
    assert InsertedEvents(b'.evs) == InsertedEvents(b.evs);
  }

  lemma InsertActiveInv(b: Base, id: Id)
    requires Inv(b) && id in b.evs
    ensures Inv(InsertActive(b, id))
    ensures MaskExact(b) ==> MaskExact(InsertActive(b, id))
  {
    hide MapsOk, MaskExact, CountOk;
    if !b.evs[id].active {
      InsertActiveQueues(b, id);
      InsertActiveCount(b, id);
      MapsFrame(b, InsertActive(b, id));
      if MaskExact(b) { MaskFrame(b, InsertActive(b, id)); }
    }
  }

  lemma RemoveActiveQueues(b: Base, id: Id)
    requires QueuesOk(b) && id in b.evs && b.evs[id].active
    ensures QueuesOk(RemoveActive(b, id))
  {
    var e := b.evs[id];
    RemoveNoDup(b.queues[e.pri], id);
    TotalUpdate(b.queues, e.pri, Remove(b.queues[e.pri], id));
  }

  lemma RemoveActiveCount(b: Base, id: Id)
    requires CountOk(b) && id in b.evs && b.evs[id].pri < |b.queues| && b.evs[id].active
    ensures CountOk(RemoveActive(b, id))
  {
    var b' := RemoveActive(b, id);
    assert b'.evs[id := b'.evs[id].(active := true)] == b.evs;
    ActiveEventsFlip(b'.evs, id);
    assert InsertedEvents(b'.evs) == InsertedEvents(b.evs);
  }

  lemma RemoveActiveInv(b: Base, id: Id)
    requires Inv(b) && id in b.evs
    ensures Inv(RemoveActive(b, id))
    ensures MaskExact(b) ==> MaskExact(RemoveActive(b, id))
  {
    hide MapsOk, MaskExact, CountOk;
    if b.evs[id].active {
      RemoveActiveQueues(b, id);
      RemoveActiveCount(b, id);
      MapsFrame(b, RemoveActive(b, id));
      if MaskExact(b) { MaskFrame(b, RemoveActive(b, id)); }
    }
  }

  // ---------------------------------------------------------------------------------------
  // The fd map
  // ---------------------------------------------------------------------------------------

  /** Nothing a caller can observe in the maps or the backend changed; empty slots may be new. */
  ghost predicate SameMaps(b: Base, b': Base) {
    && (forall fd: nat {:trigger SlotAt(b', fd)} :: SlotAt(b', fd) == SlotAt(b, fd))
    && (forall sig: nat {:trigger SignalsAt(b', sig)} :: SignalsAt(b', sig) == SignalsAt(b, sig))
    && b'.ioMask == b.ioMask && b'.sigMask == b.sigMask
  }

  /** Apart from the shape of the maps, nothing changed at all. */
  ghost predicate Untouched(b: Base, b': Base) {
    && b' == b.(io := b'.io, sigs := b'.sigs)
    && SameMaps(b, b')
  }

  lemma UntouchedInv(b: Base, b': Base)
    requires Untouched(b, b')
    ensures Inv(b) ==> Inv(b')
    ensures MaskExact(b) ==> MaskExact(b')
  {
  }

  /** The grown fd map, with the slot of `fd` in place. */
  function WithSlot(b: Base, n: nat, fd: nat, s: IoSlot): Base
    requires |b.io| <= n && fd < n
  {
    b.(io := Extend(b.io, n)[fd := Some(s)])
  }

  lemma WithSlotAt(b: Base, n: nat, fd: nat, s: IoSlot)
    requires |b.io| <= n && fd < n
    ensures forall f: nat {:trigger SlotAt(WithSlot(b, n, fd, s), f)} ::
              SlotAt(WithSlot(b, n, fd, s), f) == if f == fd then s else SlotAt(b, f)
  {
    var x := Extend(b.io, n);
    assert forall f :: 0 <= f < |b.io| ==> x[f] == x[..|b.io|][f] == b.io[f];
  }

  /** The slot after the event was put at the head of its list. */
  function Joined(s: IoSlot, id: Id, wants: set<Interest>): IoSlot {
    IoSlot([id] + s.events, s.nread + One(Read in wants), s.nwrite + One(Write in wants),
        s.nclose + One(Closed in wants))
  }

  lemma JoinedOk(evs: map<Id, Ev>, id: Id, s: IoSlot, mask: set<Interest>)
    requires id in evs && !evs[id].inserted && evs[id].interests != {} && 0 <= evs[id].fd
    requires SlotOk(evs, evs[id].fd, s, mask)
    requires var s' := Joined(s, id, evs[id].interests);
            s'.nread <= MAX_EVENTS && s'.nwrite <= MAX_EVENTS && s'.nclose <= MAX_EVENTS
    ensures var s' := Joined(s, id, evs[id].interests);
            SlotOk(evs[id := evs[id].(inserted := true)], evs[id].fd, s', mask + (OldMask(s') - OldMask(s)))
  {
    var e, evs' := evs[id], evs[id := evs[id].(inserted := true)];
    var s' := Joined(s, id, e.interests);
    assert s'.events[1..] == s.events;
    WantingFrame(evs, evs', s.events, Read);
    WantingFrame(evs, evs', s.events, Write);
    WantingFrame(evs, evs', s.events, Closed);
  }

  /** lu_evmap_io_add_ fails without a trace, or lists the event and tells the backend. */
  lemma IoAddCases(b: Base, id: Id, env: Env)
    requires id in b.evs && 0 <= b.evs[id].fd
    ensures var (b1, r) := IoAdd(b, id, env);
            var fd := b.evs[id].fd;
            var s, s' := SlotAt(b, fd), Joined(SlotAt(b, fd), id, b.evs[id].interests);
            var told := OldMask(s') - OldMask(s);
            && (r == -1 ==> Untouched(b, b1))
            && (r != -1 ==>
                  && (r == 1 <==> told != {})
                  && s'.nread <= MAX_EVENTS && s'.nwrite <= MAX_EVENTS && s'.nclose <= MAX_EVENTS
                  && b1 == b.(io := b1.io, ioMask := b1.ioMask)
                  && (forall f: nat {:trigger SlotAt(b1, f)} :: SlotAt(b1, f) == if f == fd then s' else SlotAt(b, f))
                  && (forall f: nat {:trigger MaskAt(b1, f)} ::
                        MaskAt(b1, f) == if f == fd then MaskAt(b, f) + told else MaskAt(b, f)))
  {
    var e := b.evs[id];
    var m := MakeSpace(|b.io|, e.fd, env.growOk);
    if m.Some? {
      var s := SlotAt(b, e.fd);
      WithSlotAt(b, m.value, e.fd, s);
      WithSlotAt(b, m.value, e.fd, Joined(s, id, e.interests));
      GrownAt(b, m.value);
    }
  }

  lemma GrownAt(b: Base, n: nat)
    requires |b.io| <= n
    ensures forall f: nat {:trigger SlotAt(b.(io := Extend(b.io, n)), f)} ::
        SlotAt(b.(io := Extend(b.io, n)), f) == SlotAt(b, f)
  {
    var x := Extend(b.io, n);
    assert forall f :: 0 <= f < |b.io| ==> x[f] == x[..|b.io|][f] == b.io[f];
  }

  lemma InsertedCount(b: Base, b': Base, id: Id)
    requires CountOk(b) && id in b.evs && !b.evs[id].inserted
    requires b'.evs == b.evs && b'.count == b.count && b'.countMax == b.countMax
    ensures CountOk(InsertInserted(b', id))
  {
    InsertedEventsFlip(b.evs, id);
    CountsFrame(b.evs, InsertInserted(b', id).evs);
  }

  /** Marking an event inserted keeps the invariant if the maps list it. */
  lemma ListedInv(b: Base, b1: Base, id: Id)
    requires Inv(b) && id in b.evs && !b.evs[id].inserted && SameButMaps(b, b1)
    requires b.evs[id].interests == {} ==> b.evs[id].signal && 0 <= b.evs[id].fd
    requires MapsOk(InsertInserted(b1, id))
    ensures Inv(InsertInserted(b1, id))
  {
    hide MapsOk;
    InsertedCount(b, b1, id);
    hide CountOk;
    QueuesFrame(b, InsertInserted(b1, id));
    hide QueuesOk;
  }

  /** An event with interests is added: on failure nothing shows, on success the invariant holds. */
  lemma IoAddInv(b: Base, id: Id, env: Env)
    requires Inv(b) && id in b.evs && !b.evs[id].inserted && b.evs[id].interests != {}
    ensures var (b1, r) := IoAdd(b, id, env);
            && (r == -1 ==> Untouched(b, b1))
            && (r != -1 ==> Inv(InsertInserted(b1, id)) && (MaskExact(b) ==> MaskExact(InsertInserted(b1, id))))
  {
    hide MaskExact, MapsOk;
    if 0 <= b.evs[id].fd { IoAddCases(b, id, env); }
    IoAddShape(b, id, env);
    hide IoAdd;
    if IoAdd(b, id, env).1 != -1 {
      IoAddMaps(b, id, env);
      ListedInv(b, IoAdd(b, id, env).0, id);
    }
    hide Inv;
  }

  lemma IoAddSlot(b: Base, id: Id, s: IoSlot, mask: set<Interest>, fd: nat)
    requires MapsOk(b) && id in b.evs && !b.evs[id].inserted && b.evs[id].interests != {}
    requires fd != b.evs[id].fd ==> s == SlotAt(b, fd) && mask == MaskAt(b, fd)
    requires fd == b.evs[id].fd ==>
               && s == Joined(SlotAt(b, fd), id, b.evs[id].interests)
               && s.nread <= MAX_EVENTS && s.nwrite <= MAX_EVENTS && s.nclose <= MAX_EVENTS
               && mask == MaskAt(b, fd) + (OldMask(s) - OldMask(SlotAt(b, fd)))
    ensures SlotOk(b.evs[id := b.evs[id].(inserted := true)], fd, s, mask)
    ensures MaskExact(b) ==> mask == OldMask(s)
  {
    assert SlotOk(b.evs, fd, SlotAt(b, fd), MaskAt(b, fd));
    if fd == b.evs[id].fd {
      JoinedOk(b.evs, id, SlotAt(b, fd), MaskAt(b, fd));
      OldMaskGrows(SlotAt(b, fd), id, b.evs[id].interests);
    } else {
      SlotFrame(b.evs, b.evs[id := b.evs[id].(inserted := true)], fd, SlotAt(b, fd), MaskAt(b, fd));
    }
  }

  lemma IoAddSlots(b: Base, id: Id, env: Env, fd: nat)
    requires MapsOk(b) && id in b.evs && !b.evs[id].inserted && b.evs[id].interests != {}
    requires IoAdd(b, id, env).1 != -1
    ensures var b1 := IoAdd(b, id, env).0;
            && SlotOk(b.evs[id := b.evs[id].(inserted := true)], fd, SlotAt(b1, fd), MaskAt(b1, fd))
            && (MaskExact(b) ==> MaskAt(b1, fd) == OldMask(SlotAt(b1, fd)))
  {
    hide SlotOk, MaskExact, MapsOk;
    if 0 <= b.evs[id].fd { IoAddCases(b, id, env); }
    hide IoAdd;
    var b1 := IoAdd(b, id, env).0;
    IoAddSlot(b, id, SlotAt(b1, fd), MaskAt(b1, fd), fd);
  }

  lemma IoAddShape(b: Base, id: Id, env: Env)
    requires id in b.evs
    ensures var b1 := IoAdd(b, id, env).0; b1 == b.(io := b1.io, ioMask := b1.ioMask)
  {
  }

  lemma IoAddMaps(b: Base, id: Id, env: Env)
    requires Inv(b) && id in b.evs && !b.evs[id].inserted && b.evs[id].interests != {}
    requires IoAdd(b, id, env).1 != -1
    ensures var b' := InsertInserted(IoAdd(b, id, env).0, id);
            MapsOk(b') && (MaskExact(b) ==> MaskExact(b'))
  {
    hide SlotOk, IoAdd;
    IoAddShape(b, id, env);
    var b1 := IoAdd(b, id, env).0;
    var b' := InsertInserted(b1, id);
    forall fd: nat {:trigger SlotAt(b', fd)}
      ensures SlotOk(b'.evs, fd, SlotAt(b', fd), MaskAt(b', fd))
      ensures MaskExact(b) ==> MaskAt(b', fd) == OldMask(SlotAt(b', fd))
    {
      assert SlotAt(b', fd) == SlotAt(b1, fd) && MaskAt(b', fd) == MaskAt(b1, fd);
      IoAddSlots(b, id, env, fd);
    }
    forall sig: nat {:trigger SignalsAt(b', sig)}
      ensures SignalListOk(b'.evs, sig, SignalsAt(b', sig), sig in b'.sigMask)
      ensures MaskExact(b) ==> sig in b'.sigMask ==> SignalsAt(b', sig) != []
    {
      assert SignalsAt(b', sig) == SignalsAt(b, sig);
      assert SignalListOk(b.evs, sig, SignalsAt(b, sig), sig in b.sigMask);
    }
  }

  lemma OldMaskGrows(s: IoSlot, id: Id, wants: set<Interest>)
    ensures OldMask(s) <= OldMask(Joined(s, id, wants))
  {
  }

  // ---------------------------------------------------------------------------------------
  // Leaving the fd map
  // ---------------------------------------------------------------------------------------

  /** The slot after the event left its list. */
  function Left(s: IoSlot, id: Id, wants: set<Interest>): IoSlot {
    IoSlot(Remove(s.events, id), Less(s.nread, Read in wants), Less(s.nwrite, Write in wants),
        Less(s.nclose, Closed in wants))
  }

  lemma LeftOk(evs: map<Id, Ev>, id: Id, s: IoSlot, mask: set<Interest>)
    requires id in evs && evs[id].inserted && evs[id].interests != {} && 0 <= evs[id].fd
    requires SlotOk(evs, evs[id].fd, s, mask)
    ensures var s' := Left(s, id, evs[id].interests);
            SlotOk(evs[id := evs[id].(inserted := false)], evs[id].fd, s', OldMask(s'))
  {
    var e, evs' := evs[id], evs[id := evs[id].(inserted := false)];
    RemoveNoDup(s.events, id);
    var rest := Remove(s.events, id);
    WantingRemove(evs, s.events, id, Read);
    WantingRemove(evs, s.events, id, Write);
    WantingRemove(evs, s.events, id, Closed);
    WantingFrame(evs, evs', rest, Read);
    WantingFrame(evs, evs', rest, Write);
    WantingFrame(evs, evs', rest, Closed);
  }

  /** What lu_evmap_io_del_ does to a listed event, whether or not the backend agrees. */
  lemma IoDelCases(b: Base, id: Id, backendOk: bool)
    requires id in b.evs && 0 <= b.evs[id].fd
    requires SlotAt(b, b.evs[id].fd).events != []
    ensures var (b1, r) := IoDel(b, id, backendOk);
            var fd := b.evs[id].fd;
            var s, s' := SlotAt(b, fd), Left(SlotAt(b, fd), id, b.evs[id].interests);
            var untold := OldMask(s) - OldMask(s');
            && r == (if untold == {} then 0 else if backendOk then 1 else -1)
            && b1 == b.(io := b1.io, ioMask := b1.ioMask)
            && (forall f: nat {:trigger SlotAt(b1, f)} :: SlotAt(b1, f) == if f == fd then s' else SlotAt(b, f))
            && (forall f: nat {:trigger MaskAt(b1, f)} ::
                  MaskAt(b1, f) == if f == fd && backendOk then MaskAt(b, f) - untold else MaskAt(b, f))
  {
  }

  lemma IoDelSlot(b: Base, id: Id, backendOk: bool, fd: nat)
    requires MapsOk(b) && id in b.evs && b.evs[id].inserted && b.evs[id].interests != {}
    ensures var b1 := IoDel(b, id, backendOk).0;
            && SlotOk(b.evs[id := b.evs[id].(inserted := false)], fd, SlotAt(b1, fd), MaskAt(b1, fd))
            && (backendOk && MaskExact(b) ==> MaskAt(b1, fd) == OldMask(SlotAt(b1, fd)))
  {
    var e := b.evs[id];
    assert SlotOk(b.evs, fd, SlotAt(b, fd), MaskAt(b, fd));
    if 0 <= e.fd {
      assert SlotOk(b.evs, e.fd, SlotAt(b, e.fd), MaskAt(b, e.fd));
      IoDelCases(b, id, backendOk);
    }
    hide IoDel;
    if fd == e.fd {
      LeftOk(b.evs, id, SlotAt(b, fd), MaskAt(b, fd));
      OldMaskShrinks(SlotAt(b, fd), id, e.interests);
    } else {
      SlotFrame(b.evs, b.evs[id := e.(inserted := false)], fd, SlotAt(b, fd), MaskAt(b, fd));
    }
  }

  /** An event with interests is taken out of its list: it works even if the backend refuses. */
  lemma IoDelMaps(b: Base, id: Id, backendOk: bool)
    requires MapsOk(b) && id in b.evs && b.evs[id].inserted && b.evs[id].interests != {}
    ensures var b' := IoDel(RemoveInserted(b, id), id, backendOk).0;
            MapsOk(b') && (backendOk && MaskExact(b) ==> MaskExact(b'))
  {
    var b1 := IoDel(b, id, backendOk).0;
    var b' := IoDel(RemoveInserted(b, id), id, backendOk).0;
    assert SameButMaps(b, b1) && SameButMaps(RemoveInserted(b, id), b');
    assert b1.io == b'.io && b1.ioMask == b'.ioMask && b'.sigs == b.sigs && b'.sigMask == b.sigMask;
    hide IoDel, SlotOk;
    forall fd: nat {:trigger SlotAt(b', fd)}
      ensures SlotOk(b'.evs, fd, SlotAt(b', fd), MaskAt(b', fd))
      ensures backendOk && MaskExact(b) ==> MaskAt(b', fd) == OldMask(SlotAt(b', fd))
    {
      assert SlotAt(b', fd) == SlotAt(b1, fd) && MaskAt(b', fd) == MaskAt(b1, fd);
      IoDelSlot(b, id, backendOk, fd);
    }
    forall sig: nat {:trigger SignalsAt(b', sig)}
      ensures SignalListOk(b'.evs, sig, SignalsAt(b', sig), sig in b'.sigMask)
      ensures backendOk && MaskExact(b) ==> sig in b'.sigMask ==> SignalsAt(b', sig) != []
    {
      assert SignalsAt(b', sig) == SignalsAt(b, sig);
      assert SignalListOk(b.evs, sig, SignalsAt(b, sig), sig in b.sigMask);
    }
  }

  lemma OldMaskShrinks(s: IoSlot, id: Id, wants: set<Interest>)
    ensures OldMask(Left(s, id, wants)) <= OldMask(s)
  {
  }

  // ---------------------------------------------------------------------------------------
  // The signal map
  // ---------------------------------------------------------------------------------------

  lemma SignalsGrownAt(b: Base, n: nat)
    requires |b.sigs| <= n
    ensures forall f: nat {:trigger SignalsAt(b.(sigs := Extend(b.sigs, n)), f)} ::
              SignalsAt(b.(sigs := Extend(b.sigs, n)), f) == SignalsAt(b, f)
  {
    var x := Extend(b.sigs, n);
    assert forall f :: 0 <= f < |b.sigs| ==> x[f] == x[..|b.sigs|][f] == b.sigs[f];
  }

  /** lu_evmap_signal_add_ fails without a trace, or lists the event and tells the backend. */
  lemma SignalAddCases(b: Base, id: Id, env: Env)
    requires id in b.evs
    ensures var (b1, r) := SignalAdd(b, id, env);
            var sig := b.evs[id].fd;
            && (r == -1 ==> Untouched(b, b1))
            && (r != -1 ==>
                  && r == 1 && 0 <= sig < NSIG
                  && b1 == b.(sigs := b1.sigs, sigMask := b.sigMask + {sig})
                  && (forall f: nat {:trigger SignalsAt(b1, f)} ::
                        SignalsAt(b1, f) == if f == sig then [id] + SignalsAt(b, f) else SignalsAt(b, f)))
  {
    var sig := b.evs[id].fd;
    if 0 <= sig < NSIG {
      var m := MakeSpace(|b.sigs|, sig, env.growOk);
      if m.Some? {
        SignalsGrownAt(b, m.value);
        var x := Extend(b.sigs, m.value);
        assert forall f :: 0 <= f < |b.sigs| ==> x[f] == x[..|b.sigs|][f] == b.sigs[f];
      }
    }
  }

  lemma SignalAddInv(b: Base, id: Id, env: Env)
    requires Inv(b) && id in b.evs && !b.evs[id].inserted && b.evs[id].interests == {} && b.evs[id].signal
    ensures var (b1, r) := SignalAdd(b, id, env);
            && (r == -1 ==> Untouched(b, b1))
            && (r != -1 ==> Inv(InsertInserted(b1, id)) && (MaskExact(b) ==> MaskExact(InsertInserted(b1, id))))
  {
    hide MaskExact, MapsOk;
    SignalAddCases(b, id, env);
    hide SignalAdd;
    if SignalAdd(b, id, env).1 != -1 {
      SignalAddMaps(b, id, env);
      ListedInv(b, SignalAdd(b, id, env).0, id);
    }
    hide Inv;
  }

  lemma SignalAddMaps(b: Base, id: Id, env: Env)
    requires MapsOk(b) && id in b.evs && !b.evs[id].inserted && b.evs[id].interests == {}
    requires SignalAdd(b, id, env).1 != -1
    ensures var b' := InsertInserted(SignalAdd(b, id, env).0, id);
            MapsOk(b') && (MaskExact(b) ==> MaskExact(b'))
  {
    SignalAddCases(b, id, env);
    var b1 := SignalAdd(b, id, env).0;
    var b' := InsertInserted(b1, id);
    forall fd: nat {:trigger SlotAt(b', fd)}
      ensures SlotOk(b'.evs, fd, SlotAt(b', fd), MaskAt(b', fd))
      ensures MaskExact(b) ==> MaskAt(b', fd) == OldMask(SlotAt(b', fd))
    {
      assert SlotAt(b', fd) == SlotAt(b, fd) && MaskAt(b', fd) == MaskAt(b, fd);
      assert SlotOk(b.evs, fd, SlotAt(b, fd), MaskAt(b, fd));
      SlotFrame(b.evs, b'.evs, fd, SlotAt(b, fd), MaskAt(b, fd));
    }
    forall sig: nat {:trigger SignalsAt(b', sig)}
      ensures SignalListOk(b'.evs, sig, SignalsAt(b', sig), sig in b'.sigMask)
      ensures MaskExact(b) ==> sig in b'.sigMask ==> SignalsAt(b', sig) != []
    {
      assert SignalsAt(b', sig) == SignalsAt(b1, sig);
      assert SignalListOk(b.evs, sig, SignalsAt(b, sig), sig in b.sigMask);
      assert ([id] + SignalsAt(b, sig))[1..] == SignalsAt(b, sig);
    }
  }

  lemma SignalDelCases(b: Base, id: Id, backendOk: bool)
    requires id in b.evs && 0 <= b.evs[id].fd && SignalsAt(b, b.evs[id].fd) != []
    ensures var (b1, r) := SignalDel(b, id, backendOk);
            var sig := b.evs[id].fd;
            var last := Remove(SignalsAt(b, sig), id) == [];
            && r == (if last && !backendOk then -1 else 1)
            && b1 == b.(sigs := b1.sigs, sigMask := if last && backendOk then b.sigMask - {sig} else b.sigMask)
            && (forall f: nat {:trigger SignalsAt(b1, f)} ::
                  SignalsAt(b1, f) == if f == sig then Remove(SignalsAt(b, f), id) else SignalsAt(b, f))
  {
  }

  lemma SignalDelMaps(b: Base, id: Id, backendOk: bool)
    requires MapsOk(b) && id in b.evs && b.evs[id].inserted && b.evs[id].interests == {} && 0 <= b.evs[id].fd
    ensures var b' := SignalDel(RemoveInserted(b, id), id, backendOk).0;
            MapsOk(b') && (backendOk && MaskExact(b) ==> MaskExact(b'))
  {
    var b0 := RemoveInserted(b, id);
    var b' := SignalDel(b0, id, backendOk).0;
    var mine: nat := b.evs[id].fd;
    assert SignalListOk(b.evs, mine, SignalsAt(b, mine), mine in b.sigMask);
    assert SignalsAt(b0, mine) == SignalsAt(b, mine);
    RemoveNoDup(SignalsAt(b, mine), id);
    SignalDelCases(b0, id, backendOk);
    hide SignalDel, SlotOk;
    forall fd: nat {:trigger SlotAt(b', fd)}
      ensures SlotOk(b'.evs, fd, SlotAt(b', fd), MaskAt(b', fd))
      ensures backendOk && MaskExact(b) ==> MaskAt(b', fd) == OldMask(SlotAt(b', fd))
    {
      assert SlotAt(b', fd) == SlotAt(b, fd) && MaskAt(b', fd) == MaskAt(b, fd);
      assert SlotOk(b.evs, fd, SlotAt(b, fd), MaskAt(b, fd));
      SlotFrame(b.evs, b'.evs, fd, SlotAt(b, fd), MaskAt(b, fd));
    }
    forall sig: nat {:trigger SignalsAt(b', sig)}
      ensures SignalListOk(b'.evs, sig, SignalsAt(b', sig), sig in b'.sigMask)
      ensures backendOk && MaskExact(b) ==> sig in b'.sigMask ==> SignalsAt(b', sig) != []
    {
      assert SignalsAt(b', sig) == if sig == mine then Remove(SignalsAt(b, sig), id) else SignalsAt(b, sig);
      assert SignalListOk(b.evs, sig, SignalsAt(b, sig), sig in b.sigMask);
    }
  }

  /** An event that wants an interest keeps its count above 0, so deleting never counts below. */
  lemma {:induction false} WantingMember(evs: map<Id, Ev>, s: seq<Id>, id: Id, i: Interest)
    requires id in s && id in evs && i in evs[id].interests
    ensures Wanting(evs, s, i) > 0
  {
    if s[0] != id { WantingMember(evs, s[1..], id, i); }
  }

  lemma CountsPositive(b: Base, id: Id)
    requires Inv(b) && id in b.evs && b.evs[id].inserted && 0 <= b.evs[id].fd
    ensures var s, wants := SlotAt(b, b.evs[id].fd), b.evs[id].interests;
            (Read in wants ==> s.nread > 0) && (Write in wants ==> s.nwrite > 0) && (Closed in wants ==> s.nclose > 0)
  {
    var fd := b.evs[id].fd;
    var s := SlotAt(b, fd);
    assert SlotOk(b.evs, fd, s, MaskAt(b, fd));
    if Read in b.evs[id].interests { WantingMember(b.evs, s.events, id, Read); }
    if Write in b.evs[id].interests { WantingMember(b.evs, s.events, id, Write); }
    if Closed in b.evs[id].interests { WantingMember(b.evs, s.events, id, Closed); }
  }

  // ---------------------------------------------------------------------------------------
  // The operations
  // ---------------------------------------------------------------------------------------

  lemma RemovedCount(b: Base, b': Base, id: Id)
    requires CountOk(b) && id in b.evs && b.evs[id].inserted && SameButMaps(RemoveInserted(b, id), b')
    ensures CountOk(b')
  {
    assert b'.evs[id := b'.evs[id].(inserted := true)] == b.evs;
    InsertedEventsFlip(b'.evs, id);
    assert ActiveEvents(b'.evs) == ActiveEvents(b.evs);
  }

  lemma UnlistShape(b: Base, id: Id, backendOk: bool)
    requires id in b.evs && b.evs[id].inserted
    ensures SameButMaps(RemoveInserted(b, id), Unlist(b, id, backendOk).0)
  {
  }

  /** Unlisting an inserted event, the second half of the deletion. */
  lemma UnlistInv(b: Base, id: Id, backendOk: bool)
    requires Inv(b) && id in b.evs && b.evs[id].inserted && !b.evs[id].active
    ensures var b' := Unlist(b, id, backendOk).0;
            Inv(b') && (backendOk && MaskExact(b) ==> MaskExact(b'))
  {
    var b' := Unlist(b, id, backendOk).0;
    UnlistShape(b, id, backendOk);
    assert MapsOk(b') && (backendOk && MaskExact(b) ==> MaskExact(b')) by {
      if b.evs[id].interests != {} {
        IoDelMaps(b, id, backendOk);
      } else {
        SignalDelMaps(b, id, backendOk);
      }
    }
    RemovedCount(b, b', id);
    QueuesFrame(b, b');
  }

  /** After a deletion the event is neither inserted nor active; no other event changed. */
  lemma DelFlags(b: Base, id: Id, backendOk: bool)
    requires id in b.evs && b.evs[id].pri < |b.queues|
    ensures Del(b, id, backendOk).0.evs == b.evs[id := b.evs[id].(inserted := false, active := false)]
  {
    var b1 := RemoveActive(b, id);
    assert b1.evs == b.evs[id := b.evs[id].(active := false)];
    if b1.evs[id].inserted {
      UnlistShape(b1, id, backendOk);
    }
  }

  /** Deletion keeps the invariant, even when the backend refuses. */
  lemma DelInv(b: Base, id: Id, backendOk: bool)
    requires Inv(b) && id in b.evs
    ensures var b' := Del(b, id, backendOk).0;
            Inv(b') && (backendOk && MaskExact(b) ==> MaskExact(b'))
  {
    RemoveActiveInv(b, id);
    var b1 := RemoveActive(b, id);
    if b1.evs[id].inserted {
      UnlistInv(b1, id, backendOk);
    }
  }

  lemma EnlistInv(b: Base, id: Id, env: Env)
    requires Inv(b) && id in b.evs && !b.evs[id].inserted && (b.evs[id].interests != {} || b.evs[id].signal)
    ensures var (b', r) := Enlist(b, id, env);
            && Inv(b') && (MaskExact(b) ==> MaskExact(b'))
            && (r == -1 ==> Untouched(b, b'))
  {
    if b.evs[id].interests != {} {
      IoAddInv(b, id, env);
      if IoAdd(b, id, env).1 == -1 { UntouchedInv(b, IoAdd(b, id, env).0); }
    } else {
      SignalAddInv(b, id, env);
      if SignalAdd(b, id, env).1 == -1 { UntouchedInv(b, SignalAdd(b, id, env).0); }
    }
  }

  /** Addition keeps the invariant; a failing one changes nothing but spare room in the maps. */
  lemma AddInv(b: Base, id: Id, timeout: bool, env: Env)
    requires Inv(b) && id in b.evs
    ensures var (b', r) := Add(b, id, timeout, env);
            && Inv(b') && (MaskExact(b) ==> MaskExact(b'))
            && (r == -1 ==> Untouched(b, b'))
  {
    var e := b.evs[id];
    if !(timeout && !env.heapOk) {
      if (e.interests != {} || e.signal) && !e.inserted && !e.active {
        EnlistInv(b, id, env);
      } else {
        RemoveActiveInv(b, id);
      }
    }
  }

  /** An event that is not active yet: what the call records about it. */
  function Noted(b: Base, id: Id, res: set<What>, ncalls: int): Base
    requires id in b.evs
  {
    var e := b.evs[id];
    b.(evs := b.evs[id := e.(res := res, ncalls := if e.signal then ncalls else e.ncalls)],
       continue_ := b.continue_ || e.pri < b.running)
  }

  lemma NotedInv(b: Base, id: Id, res: set<What>, ncalls: int)
    requires Inv(b) && id in b.evs
    ensures Inv(Noted(b, id, res, ncalls)) && (MaskExact(b) ==> MaskExact(Noted(b, id, res, ncalls)))
  {
    hide MapsOk, MaskExact, CountOk;
    FlagsInv(b, Noted(b, id, res, ncalls));
  }

  lemma ActiveInv(b: Base, id: Id, res: set<What>, ncalls: int)
    requires Inv(b) && id in b.evs
    ensures Inv(Active(b, id, res, ncalls)) && (MaskExact(b) ==> MaskExact(Active(b, id, res, ncalls)))
  {
    hide MapsOk, MaskExact, CountOk;
    if b.evs[id].active {
      FlagsInv(b, Active(b, id, res, ncalls));
    } else {
      NotedInv(b, id, res, ncalls);
      assert Active(b, id, res, ncalls) == InsertActive(Noted(b, id, res, ncalls), id);
      InsertActiveInv(Noted(b, id, res, ncalls), id);
    }
  }

  /** Fields the invariant does not look at. */
  lemma FlagsInv(b: Base, b': Base)
    requires Inv(b) && SameInserted(b.evs, b'.evs) && SameActive(b.evs, b'.evs)
    requires b' == b.(evs := b'.evs, continue_ := b'.continue_) && EventsOk(b')
    requires forall id :: id in b'.evs ==> b'.evs[id].pri < |b.queues|
    ensures Inv(b') && (MaskExact(b) ==> MaskExact(b'))
  {
    MapsFrame(b, b');
    QueuesFrame(b, b');
    CountsFrame(b.evs, b'.evs);
    if MaskExact(b) { MaskFrame(b, b'); }
  }

  lemma PrioritySetInv(b: Base, id: Id, pri: int)
    requires Inv(b) && id in b.evs
    ensures Inv(PrioritySet(b, id, pri).0) && (MaskExact(b) ==> MaskExact(PrioritySet(b, id, pri).0))
  {
    hide MapsOk, MaskExact, CountOk;
    if PrioritySet(b, id, pri).1 == 0 { FlagsInv(b, PrioritySet(b, id, pri).0); }
  }

  lemma CancelInv(b: Base, id: Id, backendOk: bool)
    requires Inv(b) && id in b.evs
    ensures Inv(Cancel(b, id, backendOk).0) && (backendOk && MaskExact(b) ==> MaskExact(Cancel(b, id, backendOk).0))
  {
    DelInv(b, id, backendOk);
    RemoveActiveInv(b, id);
  }

  lemma AssignIdle(b: Base, id: Id, raw: Raw, interests: set<Interest>, signal: bool, edge: bool, internal: bool,
      init: bool)
    requires Inv(b) && 0 < |b.queues| && (id in b.evs ==> !b.evs[id].inserted && !b.evs[id].active)
    requires Mixed(interests, signal) && id !in b.evs ==> raw.pri < |b.queues|
    requires !init ==> interests == {} && !signal
    ensures var b' := Assign(b, id, raw, interests, signal, edge, internal, init);
            Inv(b') && (MaskExact(b) ==> MaskExact(b'))
  {
    FlagsInv(b, Assign(b, id, raw, interests, signal, edge, internal, init));
  }

  /** An event that no list, queue or counter knows of, although it may be marked inserted. */
  predicate Unnoticed(e: Ev) {
    !e.active && (e.inserted ==> e.internal && e.interests != {} && e.fd < 0)
  }

  lemma UnmarkMaps(b: Base, b0: Base, id: Id)
    requires MapsOk(b) && EventsOk(b) && id in b.evs && Unnoticed(b.evs[id])
    requires b0 == b.(evs := b.evs[id := b.evs[id].(inserted := false)])
    ensures MapsOk(b0)
  {
    forall fd: nat {:trigger SlotAt(b0, fd)} ensures SlotOk(b0.evs, fd, SlotAt(b0, fd), MaskAt(b0, fd)) {
      assert SlotAt(b0, fd) == SlotAt(b, fd) && MaskAt(b0, fd) == MaskAt(b, fd);
      SlotFrame(b.evs, b0.evs, fd, SlotAt(b, fd), MaskAt(b, fd));
    }
    forall sig: nat {:trigger SignalsAt(b0, sig)}
      ensures SignalListOk(b0.evs, sig, SignalsAt(b0, sig), sig in b0.sigMask)
    {
      assert SignalsAt(b0, sig) == SignalsAt(b, sig);
    }
  }

  lemma UnmarkCount(b: Base, b0: Base, id: Id)
    requires CountOk(b) && id in b.evs && Unnoticed(b.evs[id])
    requires b0 == b.(evs := b.evs[id := b.evs[id].(inserted := false)])
    ensures CountOk(b0)
  {
    assert InsertedEvents(b0.evs) == InsertedEvents(b.evs) && ActiveEvents(b0.evs) == ActiveEvents(b.evs);
  }

  lemma PrioritiesFit(b: Base)
    requires QueuesOk(b)
    ensures forall id :: id in b.evs ==> b.evs[id].pri < |b.queues|
  {
  }

  /** Clearing the mark of such an event is not noticed either. */
  lemma UnmarkInv(b: Base, id: Id)
    requires Inv(b) && id in b.evs && Unnoticed(b.evs[id])
    ensures var b0 := b.(evs := b.evs[id := b.evs[id].(inserted := false)]);
            Inv(b0) && (MaskExact(b) ==> MaskExact(b0))
  {
    hide MapsOk, MaskExact, QueuesOk, CountOk;
    var b0 := b.(evs := b.evs[id := b.evs[id].(inserted := false)]);
    PrioritiesFit(b);
    UnmarkMaps(b, b0, id);
    QueuesFrame(b, b0);
    UnmarkCount(b, b0, id);
    if MaskExact(b) { MaskFrame(b, b0); }
  }

  /** Assigning an event that is noticed breaks the invariant: a list, a queue or the counter still has it. */
  lemma AssignBreaks(b: Base, b': Base, id: Id)
    requires Inv(b) && id in b.evs && !Unnoticed(b.evs[id])
    requires id in b'.evs && b' == b.(evs := b'.evs) && b'.evs == b.evs[id := b'.evs[id]]
    requires !b'.evs[id].inserted && !b'.evs[id].active
    ensures !Inv(b')
  {
    var e := b.evs[id];
    if e.active {
      assert id in b.queues[e.pri] && b'.queues[e.pri] == b.queues[e.pri];
    } else if 0 <= e.fd {
      assert SlotAt(b', e.fd) == SlotAt(b, e.fd) && SignalsAt(b', e.fd) == SignalsAt(b, e.fd);
      assert SlotOk(b.evs, e.fd, SlotAt(b, e.fd), MaskAt(b, e.fd));
      assert SignalListOk(b.evs, e.fd, SignalsAt(b, e.fd), e.fd in b.sigMask);
    } else {
      assert ActiveEvents(b'.evs) == ActiveEvents(b.evs);
      assert InsertedEvents(b'.evs) == InsertedEvents(b.evs) - {id};
    }
  }

  /** Does the call leave a priority that has a queue?  A failing one does not write the priority. */
  predicate PriorityFits(b: Base, id: Id, raw: Raw, interests: set<Interest>, signal: bool) {
    Mixed(interests, signal) && id !in b.evs ==> raw.pri < |b.queues|
  }

  /**
   Assigning storage, even if the call fails half-way, keeps the invariant exactly if nothing
   notices the event that was there and the priority left in the storage has a queue.
   */
  lemma AssignInv(b: Base, id: Id, raw: Raw, interests: set<Interest>, signal: bool, edge: bool, internal: bool,
      init: bool)
    requires Inv(b) && 0 < |b.queues|
    requires !init ==> interests == {} && !signal
    ensures var b' := Assign(b, id, raw, interests, signal, edge, internal, init);
            && (Inv(b') <==> (id in b.evs ==> Unnoticed(b.evs[id])) && PriorityFits(b, id, raw, interests, signal))
            && (Inv(b') && MaskExact(b) ==> MaskExact(b'))
  {
    hide Inv, MaskExact;
    var b' := Assign(b, id, raw, interests, signal, edge, internal, init);
    if id !in b.evs {
      if PriorityFits(b, id, raw, interests, signal) {
        AssignIdle(b, id, raw, interests, signal, edge, internal, init);
      } else {
        PriorityBreaks(b', id);
      }
    } else if Unnoticed(b.evs[id]) {
      var b0 := b.(evs := b.evs[id := b.evs[id].(inserted := false)]);
      UnmarkInv(b, id);
      AssignIdle(b0, id, raw, interests, signal, edge, internal, init);
      assert Assign(b0, id, raw, interests, signal, edge, internal, init) == b';
    } else {
      AssignBreaks(b, b', id);
    }
  }

  lemma PriorityBreaks(b: Base, id: Id)
    requires id in b.evs && |b.queues| <= b.evs[id].pri
    ensures !Inv(b)
  {
  }
}
