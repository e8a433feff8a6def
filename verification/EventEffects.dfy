/**
 What single calls on events do exactly: when an addition fails, which flags and queues it changes,
 and which queue an event goes to.  The limits are written out as numbers.
 */
module EventEffects {
  import opened EventModel
  import opened EventInvariant
  import opened EventRuns
  import opened EventTeardown

  // ---------------------------------------------------------------------------------------
  // Room in the maps
  // ---------------------------------------------------------------------------------------

  function Times(n: nat, k: nat): nat {
    if k == 0 then n else 2 * Times(n, k - 1)
  }

  /** A map of `n` entries, or of 32 if it is empty, doubled just as often as needed to have the entry. */
  ghost predicate Doublings(n: nat, slot: nat, m: nat, k: nat) {
    && m == Times(if n == 0 then 32 else n, k) && slot < m
    && (k > 0 ==> Times(if n == 0 then 32 else n, k - 1) <= slot)
  }

  lemma {:induction false} DoubledExact(n: nat, slot: nat) returns (k: nat)
    requires 0 < n
    ensures Doubled(n, slot) == Times(n, k) && slot < Times(n, k) && (k > 0 ==> Times(n, k - 1) <= slot)
    decreases slot - n
  {
    if slot < n {
      k := 0;
    } else {
      var j := DoubledExact(2 * n, slot);
      TimesTwice(n, j);
      if j > 0 { TimesTwice(n, j - 1); }
      k := j + 1;
    }
  }

  lemma {:induction false} TimesTwice(n: nat, k: nat)
    ensures Times(2 * n, k) == Times(n, k + 1)
  {
    if k > 0 { TimesTwice(n, k - 1); }
  }

  /**
   lu_evmap_make_space: nothing to do if the entry is there; else the map is doubled just often
   enough, unless the entry is beyond half of the range of int, the map would not fit into its
   range, or there is no memory.
   */
  lemma MakeSpaceExact(n: nat, slot: nat, growOk: bool) returns (m: nat, k: nat)
    ensures slot < n ==> MakeSpace(n, slot, growOk) == Some(n)
    ensures slot >= n ==> Doublings(n, slot, m, k)
    ensures slot >= n ==>
        MakeSpace(n, slot, growOk) == if slot <= 0x3fffffff && m <= 0x0fffffff && growOk then Some(m) else None
  {
    m, k := n, 0;
    if slot >= n {
      m := Doubled(if n == 0 then 32 else n, slot);
      k := DoubledExact(if n == 0 then 32 else n, slot);
    }
  }

  // ---------------------------------------------------------------------------------------
  // Addition
  // ---------------------------------------------------------------------------------------

  /** Something to be listed for. */
  predicate Wants(e: Ev) {
    e.interests != {} || e.signal
  }

  predicate Idle(e: Ev) {
    !e.inserted && !e.active
  }

  /** No counter of the slot is used up by the event. */
  predicate CountsLeft(s: IoSlot, wants: set<Interest>) {
    && (Read in wants ==> s.nread < 65535) && (Write in wants ==> s.nwrite < 65535)
    && (Closed in wants ==> s.nclose < 65535)
  }

  /** Edge- and level-triggered events on one fd are refused in debug mode. */
  predicate EdgesMix(b: Base, id: Id, s: seq<Id>)
    requires id in b.evs
  {
    s != [] && s[0] in b.evs && b.evs[s[0]].edge != b.evs[id].edge
  }

  /** Can the event be put on the list of its fd? */
  ghost predicate IoFits(b: Base, id: Id, env: Env)
    requires id in b.evs
  {
    var e := b.evs[id];
    e.fd < 0 ||
    (&& MakeSpace(|b.io|, e.fd, env.growOk).Some?
     && ((e.fd < |b.io| && b.io[e.fd].Some?) || env.slotOk)
     && CountsLeft(SlotAt(b, e.fd), e.interests)
     && !(env.debugMode && EdgesMix(b, id, SlotAt(b, e.fd).events))
     && (e.interests <= OldMask(SlotAt(b, e.fd)) || env.backendOk))
  }

  /** Can it be put on the list of its signal? */
  ghost predicate SignalFits(b: Base, id: Id, env: Env)
    requires id in b.evs
  {
    var sig := b.evs[id].fd;
    && 0 <= sig < 65 && MakeSpace(|b.sigs|, sig, env.growOk).Some?
    && ((sig < |b.sigs| && b.sigs[sig].Some?) || env.slotOk)
    && (SignalsAt(b, sig) != [] || env.backendOk)
  }

  ghost predicate Fits(b: Base, id: Id, env: Env)
    requires id in b.evs
  {
    if b.evs[id].interests != {} then IoFits(b, id, env) else SignalFits(b, id, env)
  }

  /** What the backend would be told: the interests that no listed event has. */
  lemma ToldIs(s: IoSlot, wants: set<Interest>)
    ensures var s' := IoSlot([], s.nread + One(Read in wants), s.nwrite + One(Write in wants),
                s.nclose + One(Closed in wants));
            OldMask(s') - OldMask(s) == wants - OldMask(s)
    ensures wants - OldMask(s) == {} <==> wants <= OldMask(s)
  {
    var s' := IoSlot([], s.nread + One(Read in wants), s.nwrite + One(Write in wants), s.nclose + One(Closed in wants));
    var told, left := OldMask(s') - OldMask(s), wants - OldMask(s);
    forall i: Interest ensures i in told <==> i in left {
      match i
      case Read =>
      case Write =>
      case Closed =>
    }
    NothingLeft(wants, OldMask(s));
  }

  lemma NothingLeft<T>(s: set<T>, t: set<T>)
    ensures s - t == {} <==> s <= t
  {
    assert s - t == {} ==> forall x :: x in s ==> x in t || x in s - t;
  }

  lemma SlotGrown(b: Base, fd: nat, n: nat)
    requires |b.io| <= n && fd < n
    ensures var x := Extend(b.io, n)[fd];
            && (x.Some? <==> fd < |b.io| && b.io[fd].Some?)
            && SlotAt(b, fd) == if x.Some? then x.value else IoSlot([], 0, 0, 0)
  {
    var x := Extend(b.io, n);
    assert fd < |b.io| ==> x[..|b.io|][fd] == x[fd] && b.io[fd] == x[fd];
  }

  lemma SignalsGrown(b: Base, sig: nat, n: nat)
    requires |b.sigs| <= n && sig < n
    ensures var x := Extend(b.sigs, n)[sig];
            && (x.Some? <==> sig < |b.sigs| && b.sigs[sig].Some?)
            && SignalsAt(b, sig) == if x.Some? then x.value else []
  {
    var x := Extend(b.sigs, n);
    assert sig < |b.sigs| ==> x[..|b.sigs|][sig] == x[sig] && b.sigs[sig] == x[sig];
  }

  predicate SlotLimits(s: IoSlot) {
    s.nread <= 65535 && s.nwrite <= 65535 && s.nclose <= 65535
  }

  /** An fd takes up to 65535 events of each kind; listing fails exactly if something does not fit. */
  lemma IoAddFails(b: Base, id: Id, env: Env)
    requires id in b.evs && (0 <= b.evs[id].fd ==> SlotLimits(SlotAt(b, b.evs[id].fd)))
    ensures IoAdd(b, id, env).1 == -1 <==> !IoFits(b, id, env)
    ensures IoFits(b, id, env) ==> 0 <= IoAdd(b, id, env).1 <= 1
  {
    hide Extend, MakeSpace, OldMask;
    var e := b.evs[id];
    if 0 <= e.fd {
      var m := MakeSpace(|b.io|, e.fd, env.growOk);
      ToldIs(SlotAt(b, e.fd), e.interests);
      if m.Some? { SlotGrown(b, e.fd, m.value); }
    }
  }

  lemma SignalAddFails(b: Base, id: Id, env: Env)
    requires id in b.evs
    ensures SignalAdd(b, id, env).1 == if SignalFits(b, id, env) then 1 else -1
  {
    hide Extend, MakeSpace;
    var sig := b.evs[id].fd;
    if 0 <= sig < NSIG {
      var m := MakeSpace(|b.sigs|, sig, env.growOk);
      if m.Some? { SignalsGrown(b, sig, m.value); }
    }
  }

  lemma LimitsKept(b: Base, fd: nat)
    requires Inv(b)
    ensures SlotLimits(SlotAt(b, fd))
  {
    assert SlotOk(b.evs, fd, SlotAt(b, fd), MaskAt(b, fd));
  }

  /** When an addition fails: no memory for the timeout, or an idle event does not fit on its list. */
  ghost predicate AddFails(b: Base, id: Id, timeout: bool, env: Env)
    requires id in b.evs
  {
    (timeout && !env.heapOk) || (Wants(b.evs[id]) && Idle(b.evs[id]) && !Fits(b, id, env))
  }

  /** A new timeout takes back what an earlier one made active. */
  ghost predicate TakesBack(b: Base, id: Id, timeout: bool, env: Env)
    requires id in b.evs
  {
    !AddFails(b, id, timeout, env) && timeout && b.evs[id].active && TimedOut in b.evs[id].res
  }

  /** `s` without the event, the others in their order. */
  ghost predicate Dropped(s: seq<Id>, id: Id, s': seq<Id>) {
    exists k :: 0 <= k < |s| && s[k] == id && s' == s[..k] + s[k + 1..]
  }

  lemma {:induction false} RemoveDrops(s: seq<Id>, id: Id)
    requires id in s
    ensures Dropped(s, id, Remove(s, id))
  {
    var k := RemovedAt(s, id);
    assert Dropped(s, id, Remove(s, id));
  }

  lemma {:induction false} RemovedAt(s: seq<Id>, id: Id) returns (k: nat)
    requires id in s
    ensures k < |s| && s[k] == id && Remove(s, id) == s[..k] + s[k + 1..]
  {
    if s[0] == id {
      k := 0;
    } else {
      var j := RemovedAt(s[1..], id);
      k := j + 1;
      Behead(s, j);
    }
  }

  lemma Behead(s: seq<Id>, j: nat)
    requires j + 1 < |s|
    ensures [s[0]] + (s[1..][..j] + s[1..][j + 1..]) == s[..j + 1] + s[j + 2..]
  {
    assert s[1..][..j] == s[1..j + 1] && s[1..][j + 1..] == s[j + 2..];
  }

  /**
   The exact effect of lu_event_add_nolock_ on flags and queues: an idle event that wants something
   becomes inserted if the call succeeds; the active flag and the queue change only if the call
   succeeds, a timeout was given and the event is active because of a timeout.
   */
  lemma AddExact(b: Base, id: Id, timeout: bool, env: Env)
    requires Inv(b) && id in b.evs
    ensures b.evs[id].pri < |b.queues|
    ensures var (b', r) := Add(b, id, timeout, env);
            var e := b.evs[id];
            && r == (if AddFails(b, id, timeout, env) then -1 else 0)
            && b'.evs == b.evs[id := e.(
                 inserted := e.inserted || (r == 0 && Wants(e) && Idle(e)),
                 active := e.active && !TakesBack(b, id, timeout, env))]
            && (!TakesBack(b, id, timeout, env) ==> b'.queues == b.queues)
            && (TakesBack(b, id, timeout, env) ==>
                  && |b'.queues| == |b.queues| && Dropped(b.queues[e.pri], id, b'.queues[e.pri])
                  && b'.queues == b.queues[e.pri := b'.queues[e.pri]])
            && b'.continue_ == b.continue_ && b'.running == b.running
  {
    var e := b.evs[id];
    PrioritiesOk(b);
    if 0 <= e.fd { LimitsKept(b, e.fd); }
    if e.active { Queued(b, id); RemoveDrops(b.queues[e.pri], id); }
    hide Inv, Dropped;
    EnlistFails(b, id, env);
    AddFlags(b, id, timeout, env);
    AddQueues(b, id, timeout, env);
    hide Add, Fits, Remove;
  }

  /** The three ways through the call. */
  lemma AddCases(b: Base, id: Id, timeout: bool, env: Env)
    requires id in b.evs && b.evs[id].pri < |b.queues|
    requires Enlist(b, id, env).1 == if Fits(b, id, env) then 0 else -1
    ensures var e := b.evs[id];
            Add(b, id, timeout, env) ==
              if timeout && !env.heapOk then (b, -1)
              else if Wants(e) && Idle(e) then Enlist(b, id, env)
              else if TakesBack(b, id, timeout, env) then (RemoveActive(b, id), 0)
              else (b, 0)
  {
    hide Enlist, Fits, RemoveActive;
  }

  lemma AddFlags(b: Base, id: Id, timeout: bool, env: Env)
    requires id in b.evs && b.evs[id].pri < |b.queues|
    requires Enlist(b, id, env).1 == if Fits(b, id, env) then 0 else -1
    ensures var (b', r) := Add(b, id, timeout, env);
            var e := b.evs[id];
            && r == (if AddFails(b, id, timeout, env) then -1 else 0)
            && b'.evs == b.evs[id := e.(
                 inserted := e.inserted || (r == 0 && Wants(e) && Idle(e)),
                 active := e.active && !TakesBack(b, id, timeout, env))]
  {
    hide Add, Enlist, Fits, RemoveActive, Wants;
    AddCases(b, id, timeout, env);
    ListedFlags(b, id, env);
    RemovedFlags(b, id);
    hide Remove;
    assert b.evs == b.evs[id := b.evs[id]];
  }

  lemma AddQueues(b: Base, id: Id, timeout: bool, env: Env)
    requires id in b.evs && b.evs[id].pri < |b.queues|
    requires Enlist(b, id, env).1 == if Fits(b, id, env) then 0 else -1
    ensures var b', e := Add(b, id, timeout, env).0, b.evs[id];
            && b'.queues == (if TakesBack(b, id, timeout, env)
                             then b.queues[e.pri := Remove(b.queues[e.pri], id)] else b.queues)
            && b'.continue_ == b.continue_ && b'.running == b.running
  {
    hide Add, Enlist, Fits, Remove, RemoveActive, Wants;
    AddCases(b, id, timeout, env);
    ListedFlags(b, id, env);
    RemovedFlags(b, id);
  }

  lemma ListedFlags(b: Base, id: Id, env: Env)
    requires id in b.evs
    ensures var (b', r) := Enlist(b, id, env);
            && b'.evs == b.evs[id := b.evs[id].(inserted := b.evs[id].inserted || r != -1)]
            && b'.queues == b.queues && b'.continue_ == b.continue_ && b'.running == b.running
  {
    EnlistShape(b, id, env);
    hide Enlist;
    assert b.evs == b.evs[id := b.evs[id]];
  }

  lemma RemovedFlags(b: Base, id: Id)
    requires id in b.evs && b.evs[id].pri < |b.queues|
    ensures var b', e := RemoveActive(b, id), b.evs[id];
            && b'.evs == b.evs[id := e.(active := false)]
            && b'.queues == (if e.active then b.queues[e.pri := Remove(b.queues[e.pri], id)] else b.queues)
            && b'.continue_ == b.continue_ && b'.running == b.running
  {
    assert b.evs == b.evs[id := b.evs[id]];
  }

  lemma Queued(b: Base, id: Id)
    requires Inv(b) && id in b.evs && b.evs[id].active
    ensures b.evs[id].pri < |b.queues| && id in b.queues[b.evs[id].pri]
  {
  }

  lemma EnlistFails(b: Base, id: Id, env: Env)
    requires id in b.evs && (0 <= b.evs[id].fd ==> SlotLimits(SlotAt(b, b.evs[id].fd)))
    ensures Enlist(b, id, env).1 == if Fits(b, id, env) then 0 else -1
  {
    IoAddFails(b, id, env);
    SignalAddFails(b, id, env);
    hide IoAdd, SignalAdd, IoFits, SignalFits;
  }

  // ---------------------------------------------------------------------------------------
  // Deletion
  // ---------------------------------------------------------------------------------------

  /** Is the event the only one on its list that has some interest, or the only one of its signal? */
  ghost predicate LastOne(b: Base, id: Id)
    requires id in b.evs
  {
    var e := b.evs[id];
    0 <= e.fd &&
    if e.interests != {} then
      exists i :: i in e.interests && forall x :: x in SlotAt(b, e.fd).events && x in b.evs && x != id ==>
        i !in b.evs[x].interests
    else forall x :: x in SignalsAt(b, e.fd) ==> x == id
  }

  lemma LeftMask(b: Base, id: Id, i: Interest)
    requires Inv(b) && id in b.evs && b.evs[id].inserted && b.evs[id].interests != {} && 0 <= b.evs[id].fd
    ensures var s, e := SlotAt(b, b.evs[id].fd), b.evs[id];
            i in OldMask(s) - OldMask(Left(s, id, e.interests)) <==>
              i in e.interests && forall x :: x in s.events && x in b.evs && x != id ==> i !in b.evs[x].interests
  {
    var s, e := SlotAt(b, b.evs[id].fd), b.evs[id];
    var evs' := b.evs[id := e.(inserted := false)];
    var s' := Left(s, id, e.interests);
    assert SlotOk(b.evs, e.fd, s, MaskAt(b, e.fd));
    LeftOk(b.evs, id, s, MaskAt(b, e.fd));
    RemoveNoDup(s.events, id);
    WantingSome(b.evs, s.events, i);
    WantingSome(evs', s'.events, i);
  }

  lemma IoDelFails(b: Base, id: Id, backendOk: bool)
    requires Inv(b) && id in b.evs && b.evs[id].inserted && b.evs[id].interests != {}
    ensures IoDel(b, id, backendOk).1 == -1 <==> !backendOk && LastOne(b, id)
    ensures -1 <= IoDel(b, id, backendOk).1 <= 1
  {
    var e := b.evs[id];
    if 0 <= e.fd {
      var s := SlotAt(b, e.fd);
      assert SlotOk(b.evs, e.fd, s, MaskAt(b, e.fd)) && id in s.events;
      IoDelCases(b, id, backendOk);
      var untold := OldMask(s) - OldMask(Left(s, id, e.interests));
      forall i ensures i in untold <==> i in e.interests && forall x :: x in s.events && x in b.evs && x != id ==>
        i !in b.evs[x].interests
      {
        LeftMask(b, id, i);
      }
      assert untold != {} <==> exists i :: i in untold;
    }
  }

  lemma SignalDelFails(b: Base, id: Id, backendOk: bool)
    requires Inv(b) && id in b.evs && b.evs[id].inserted && b.evs[id].interests == {}
    ensures SignalDel(b, id, backendOk).1 == if !backendOk && LastOne(b, id) then -1 else 1
  {
    var e := b.evs[id];
    var s := SignalsAt(b, e.fd);
    assert SignalListOk(b.evs, e.fd, s, e.fd in b.sigMask) && id in s;
    SignalDelCases(b, id, backendOk);
    RemoveNoDup(s, id);
    var rest := Remove(s, id);
    assert rest != [] ==> rest[0] in rest;
    assert forall x :: x in s && x != id ==> x in rest;
  }

  lemma LastOneActive(b: Base, b1: Base, id: Id)
    requires id in b.evs && b1.evs == b.evs[id := b.evs[id].(active := false)] && b1.io == b.io && b1.sigs == b.sigs
    ensures LastOne(b1, id) <==> LastOne(b, id)
  {
    var e := b.evs[id];
    if 0 <= e.fd {
      assert SlotAt(b1, e.fd) == SlotAt(b, e.fd) && SignalsAt(b1, e.fd) == SignalsAt(b, e.fd);
      assert forall x :: x in b.evs ==> b1.evs[x].interests == b.evs[x].interests;
    }
  }

  /** What the deletion answers. */
  lemma DelAnswer(b: Base, id: Id, backendOk: bool)
    requires Inv(b) && id in b.evs
    ensures b.evs[id].pri < |b.queues|
    ensures Del(b, id, backendOk).1 == if b.evs[id].inserted && !backendOk && LastOne(b, id) then -1 else 0
  {
    var b1 := RemoveActive(b, id);
    PrioritiesOk(b);
    RemoveActiveInv(b, id);
    RemovedFlags(b, id);
    if b.evs[id].inserted {
      var b2 := RemoveInserted(b1, id);
      LastOneActive(b, b1, id);
      if b.evs[id].interests != {} {
        IoDelFails(b1, id, backendOk);
        DelMarks(b1, b2, id, backendOk);
      } else {
        SignalDelFails(b1, id, backendOk);
        DelMarks(b1, b2, id, backendOk);
      }
    }
    hide Inv, LastOne, IoDel, SignalDel, RemoveActive;
  }

  /** The mark of the event makes no difference to its lists. */
  lemma DelMarks(b: Base, b2: Base, id: Id, backendOk: bool)
    requires id in b.evs && b2 == RemoveInserted(b, id)
    ensures IoDel(b2, id, backendOk).1 == IoDel(b, id, backendOk).1
    ensures SignalDel(b2, id, backendOk).1 == SignalDel(b, id, backendOk).1
  {
  }

  /**
   The exact effect of lu_event_del_nolock_: both flags go, an active event leaves its queue, and the
   call fails exactly if the backend refuses to forget what only this event wanted.
   */
  lemma DelExact(b: Base, id: Id, backendOk: bool)
    requires Inv(b) && id in b.evs
    ensures b.evs[id].pri < |b.queues|
    ensures var (b', r) := Del(b, id, backendOk);
            var e := b.evs[id];
            && r == (if e.inserted && !backendOk && LastOne(b, id) then -1 else 0)
            && b'.evs == b.evs[id := e.(inserted := false, active := false)]
            && (!e.active ==> b'.queues == b.queues)
            && (e.active ==>
                  && |b'.queues| == |b.queues| && Dropped(b.queues[e.pri], id, b'.queues[e.pri])
                  && b'.queues == b.queues[e.pri := b'.queues[e.pri]])
            && b'.continue_ == b.continue_ && b'.running == b.running
  {
    DelAnswer(b, id, backendOk);
    if b.evs[id].active { Queued(b, id); RemoveDrops(b.queues[b.evs[id].pri], id); }
    hide Inv, LastOne, Dropped;
    DelFlags(b, id, backendOk);
    DelShape(b, id, backendOk);
    RemovedFlags(b, id);
    hide Del, RemoveActive, Remove;
  }

  /** A bare callback only leaves its queue; anything else is deleted. */
  lemma CancelExact(b: Base, id: Id, backendOk: bool)
    requires Inv(b) && id in b.evs
    ensures b.evs[id].pri < |b.queues|
    ensures b.evs[id].init ==> Cancel(b, id, backendOk) == Del(b, id, backendOk)
    ensures !b.evs[id].init ==>
              var (b', r) := Cancel(b, id, backendOk);
              var e := b.evs[id];
              && r == 0 && b'.evs == b.evs[id := e.(active := false)]
              && (!e.active ==> b'.queues == b.queues)
              && (e.active ==>
                    && |b'.queues| == |b.queues| && Dropped(b.queues[e.pri], id, b'.queues[e.pri])
                    && b'.queues == b.queues[e.pri := b'.queues[e.pri]])
              && b'.continue_ == b.continue_ && b'.running == b.running
  {
    PrioritiesOk(b);
    if b.evs[id].active { Queued(b, id); RemoveDrops(b.queues[b.evs[id].pri], id); }
    hide Inv, Dropped;
    RemovedFlags(b, id);
    hide Del, RemoveActive, Remove;
  }

  // ---------------------------------------------------------------------------------------
  // Activation and priorities
  // ---------------------------------------------------------------------------------------

  /** The event is active and the last one of queue `i`; nothing else moved. */
  ghost predicate Enqueued(b: Base, b': Base, id: Id, i: int) {
    && 0 <= i < |b.queues| && b'.queues == b.queues[i := b.queues[i] + [id]]
    && id in b'.evs && b'.evs[id].active
  }

  /**
   lu_event_active_nolock_: an active event gets more results and nothing else happens; an idle one
   gets exactly these results, a signal event the call count as well, and it goes to the tail of the
   queue of its priority; the loop is told to go on if that is below the running one.
   */
  lemma ActiveExact(b: Base, id: Id, res: set<What>, ncalls: int)
    requires Inv(b) && id in b.evs
    ensures b.evs[id].pri < |b.queues|
    ensures var b', e := Active(b, id, res, ncalls), b.evs[id];
            && (e.active ==> b' == b.(evs := b.evs[id := e.(res := e.res + res)]))
            && (!e.active ==>
                  && b'.evs == b.evs[id :=
                       e.(active := true, res := res, ncalls := if e.signal then ncalls else e.ncalls)]
                  && Enqueued(b, b', id, e.pri)
                  && (b'.continue_ <==> b.continue_ || e.pri < b.running))
  {
    PrioritiesOk(b);
  }

  /** A priority that was set is the queue that the next activation uses. */
  lemma PriorityUsed(b: Base, id: Id, pri: int, res: set<What>, ncalls: int)
    requires Inv(b) && id in b.evs && !b.evs[id].active
    ensures PrioritySet(b, id, pri).1 == if 0 <= pri < |b.queues| then 0 else -1
    ensures Inv(PrioritySet(b, id, pri).0) && id in PrioritySet(b, id, pri).0.evs
    ensures PrioritySet(b, id, pri).0.evs[id].pri < |b.queues| == |PrioritySet(b, id, pri).0.queues|
    ensures Enqueued(b, Active(PrioritySet(b, id, pri).0, id, res, ncalls), id,
        if 0 <= pri < |b.queues| then pri else b.evs[id].pri)
  {
    PrioritySetInv(b, id, pri);
    var b1 := PrioritySet(b, id, pri).0;
    ActiveExact(b1, id, res, ncalls);
    PrioritiesOk(b);
    hide Inv, Active;
  }

  /** An event that was assigned goes to the middle queue, or to the one it had if the call failed. */
  lemma AssignedQueue(b: Base, id: Id, raw: Raw, interests: set<Interest>, signal: bool, edge: bool, internal: bool,
      init: bool, res: set<What>, ncalls: int)
    requires Inv(b) && 0 < |b.queues| && (id in b.evs ==> Unnoticed(b.evs[id]))
    requires PriorityFits(b, id, raw, interests, signal) && (!init ==> interests == {} && !signal)
    ensures var b' := Assign(b, id, raw, interests, signal, edge, internal, init);
            && Inv(b') && id in b'.evs && b'.evs[id].pri < |b'.queues| && b'.queues == b.queues
            && var i := b'.evs[id].pri;
               && Enqueued(b, Active(b', id, res, ncalls), id, i)
               && if signal && interests != {} then i == Stored(b, id, raw).pri else 2 * i <= |b.queues| < 2 * i + 2
  {
    AssignInv(b, id, raw, interests, signal, edge, internal, init);
    ActiveExact(Assign(b, id, raw, interests, signal, edge, internal, init), id, res, ncalls);
    hide Inv, Active;
  }

  // ---------------------------------------------------------------------------------------
  // One-shot events
  // ---------------------------------------------------------------------------------------

  /** Is the callback made active at once? */
  predicate Immediate(interests: set<Interest>, tv: Timeout) {
    interests == {} && tv != Positive
  }

  /** The event that a one-shot call leaves. */
  function OnceEvent(b: Base, interests: set<Interest>, tv: Timeout): Ev {
    var now := Immediate(interests, tv);
    Ev(0, interests, false, false, false, true, |b.queues| / 2, interests != {}, now,
       if now then {TimedOut} else {}, 0)
  }

  lemma OnceAdded(b: Base, id: Id, interests: set<Interest>, tv: Timeout, timeout: bool, env: Env)
    requires Inv(b) && id !in b.evs && 0 < |b.queues| && !Immediate(interests, tv)
    ensures var b1 := Assign(b, id, ZEROED, interests, false, false, false, true);
            && id in b1.evs && b1.evs[id].pri < |b1.queues| == |b.queues|
            && var (b', r) := Scheduled(id, Add(b1, id, timeout, env));
               && r == (if AddFails(b1, id, timeout, env) then -1 else 0)
               && (r == 0 ==> b'.evs == b.evs[id := OnceEvent(b, interests, tv)] && b'.queues == b.queues)
  {
    hide Inv, Add, AddFails, Dropped, Assign, Fits;
    var b1 := Assign(b, id, ZEROED, interests, false, false, false, true);
    AssignInv(b, id, ZEROED, interests, false, false, false, true);
    OnceStored(b, id, interests);
    AddExact(b1, id, timeout, env);
    var e, e' := b1.evs[id], OnceEvent(b, interests, tv);
    assert !e.active && e' == e.(inserted := interests != {});
    assert b.evs[id := e][id := e'] == b.evs[id := e'];
  }

  /** The event before it is scheduled. */
  lemma OnceStored(b: Base, id: Id, interests: set<Interest>)
    requires id !in b.evs
    ensures var b1 := Assign(b, id, ZEROED, interests, false, false, false, true);
            && b1.evs == b.evs[id := Ev(0, interests, false, false, false, true, |b.queues| / 2, false, false, {}, 0)]
            && b1.queues == b.queues
  {
  }

  lemma OnceAtOnce(b: Base, id: Id, tv: Timeout)
    requires Inv(b) && id !in b.evs && 0 < |b.queues| && Immediate({}, tv)
    ensures var b1 := Assign(b, id, ZEROED, {}, false, false, false, true);
            && id in b1.evs && b1.evs[id].pri < |b1.queues|
            && var b' := Active(b1, id, {TimedOut}, 1);
               b'.evs == b.evs[id := OnceEvent(b, {}, tv)] && Enqueued(b, b', id, |b.queues| / 2)
  {
    AssignInv(b, id, ZEROED, {}, false, false, false, true);
    ActiveExact(Assign(b, id, ZEROED, {}, false, false, false, true), id, {TimedOut}, 1);
    hide Inv, Active;
  }

  /**
   lu_event_base_once: when it fails, and the event and the queues it leaves when it does not: the
   event is one of fd 0 in the middle queue, listed if it has interests, and at once active with the
   result of a timeout if it has none and no positive timeout.
   */
  lemma OnceExact(b: Base, id: Id, timeout: bool, interests: set<Interest>, forbidden: bool, tv: Timeout,
      stored: bool, env: Env)
    requires Inv(b) && id !in b.evs && 0 < |b.queues|
    ensures var (b', r) := Once(b, id, timeout, interests, forbidden, tv, stored, env);
            var b1 := Assign(b, id, ZEROED, interests, false, false, false, true);
            && id in b1.evs
            && r == (if forbidden || !stored || (!timeout && interests == {})
                        || (!Immediate(interests, tv) && AddFails(b1, id, interests == {} || tv != NoTimeout, env))
                     then -1 else 0)
            && (r == 0 ==> b'.evs == b.evs[id := OnceEvent(b, interests, tv)])
            && (r == 0 && Immediate(interests, tv) ==> Enqueued(b, b', id, |b.queues| / 2))
            && (r == 0 && !Immediate(interests, tv) ==> b'.queues == b.queues)
  {
    hide Inv, Active, Add, AddFails, Assign, OnceEvent, Enqueued, Scheduled;
    AssignKnown(b, id, interests);
    if forbidden || !stored || (!timeout && interests == {}) {
    } else if Immediate(interests, tv) {
      OnceAtOnce(b, id, tv);
    } else {
      OnceAdded(b, id, interests, tv, interests == {} || tv != NoTimeout, env);
    }
  }

  lemma AssignKnown(b: Base, id: Id, interests: set<Interest>)
    ensures id in Assign(b, id, ZEROED, interests, false, false, false, true).evs
  {
  }
}
