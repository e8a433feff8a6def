/**
 What holds over whole runs of the event bookkeeping, what one call undoes of another, and the
 tear-down of a base.
 */
module EventRuns {
  import opened EventModel
  import opened EventInvariant

  // ---------------------------------------------------------------------------------------
  // Runs
  // ---------------------------------------------------------------------------------------

  datatype Op =
    | OpAssign(id: Id, raw: Raw, interests: set<Interest>, signal: bool, edge: bool, internal: bool, init: bool)
    | OpAdd(id: Id, timeout: bool, env: Env)
    | OpDel(id: Id, backendOk: bool)
    | OpActive(id: Id, res: set<What>, ncalls: int)
    | OpActivate(id: Id)
    | OpPrioritySet(id: Id, pri: int)
    | OpCancel(id: Id, backendOk: bool)

  /** What is asked of the caller: known storage, and no re-assignment of an event in use. */
  predicate Allowed(b: Base, op: Op) {
    match op
    case OpAssign(id, raw, interests, signal, _, _, init) =>
      && (id in b.evs ==> Unnoticed(b.evs[id])) && PriorityFits(b, id, raw, interests, signal)
      && (!init ==> interests == {} && !signal)
    case _ => op.id in b.evs
  }

  function Step(b: Base, op: Op): Base
    requires Inv(b)
  {
    if !Allowed(b, op) then b
    else match op
      case OpAssign(id, raw, interests, signal, edge, internal, init) =>
        Assign(b, id, raw, interests, signal, edge, internal, init)
      case OpAdd(id, timeout, env) => Add(b, id, timeout, env).0
      case OpDel(id, backendOk) => Del(b, id, backendOk).0
      case OpActive(id, res, ncalls) => Active(b, id, res, ncalls)
      case OpActivate(id) => Activate(b, id).0
      case OpPrioritySet(id, pri) => PrioritySet(b, id, pri).0
      case OpCancel(id, backendOk) => Cancel(b, id, backendOk).0
  }

  /** No backend call that removes interest was refused. */
  predicate BackendDeletes(op: Op) {
    match op
    case OpDel(_, backendOk) => backendOk
    case OpCancel(_, backendOk) => backendOk
    case _ => true
  }

  /** Apart from the maps, an addition lists the event, takes it off its queue, or does nothing. */
  lemma AddShape(b: Base, id: Id, timeout: bool, env: Env)
    requires id in b.evs && b.evs[id].pri < |b.queues|
    ensures var b' := Add(b, id, timeout, env).0;
            SameButMaps(b, b') || SameButMaps(InsertInserted(b, id), b') || SameButMaps(RemoveActive(b, id), b')
  {
    var e := b.evs[id];
    hide RemoveActive;
    if (e.interests != {} || e.signal) && !e.inserted && !e.active {
      EnlistShape(b, id, env);
    }
    hide Enlist;
  }

  lemma EnlistShape(b: Base, id: Id, env: Env)
    requires id in b.evs
    ensures var (b', r) := Enlist(b, id, env); SameButMaps(if r == -1 then b else InsertInserted(b, id), b')
  {
    if b.evs[id].interests != {} {
      assert SameButMaps(b, IoAdd(b, id, env).0);
      hide IoAdd;
    } else {
      assert SameButMaps(b, SignalAdd(b, id, env).0);
      hide SignalAdd;
    }
  }

  lemma DelShape(b: Base, id: Id, backendOk: bool)
    requires id in b.evs && b.evs[id].pri < |b.queues|
    ensures SameButMaps(RemoveInserted(RemoveActive(b, id), id), Del(b, id, backendOk).0)
  {
    var b1 := RemoveActive(b, id);
    if b1.evs[id].inserted { UnlistShape(b1, id, backendOk); }
    hide Unlist, RemoveActive;
  }

  /** The counters inside one step: no value above the larger of the two ends is passed. */
  ghost predicate Tallied(b: Base, b': Base) {
    && |b'.queues| == |b.queues|
    && b'.countMax == Max(b.countMax, b'.count) && b'.activeMax == Max(b.activeMax, b'.activeCount)
  }

  lemma AddTallied(b: Base, id: Id, timeout: bool, env: Env)
    requires id in b.evs && b.evs[id].pri < |b.queues| && b.count <= b.countMax && b.activeCount <= b.activeMax
    ensures Tallied(b, Add(b, id, timeout, env).0)
  {
    AddShape(b, id, timeout, env);
    hide Add;
  }

  lemma DelTallied(b: Base, id: Id, backendOk: bool)
    requires id in b.evs && b.evs[id].pri < |b.queues| && b.count <= b.countMax && b.activeCount <= b.activeMax
    ensures Tallied(b, Del(b, id, backendOk).0)
  {
    DelShape(b, id, backendOk);
    hide Del;
  }

  lemma StepTallied(b: Base, op: Op)
    requires Inv(b)
    ensures Tallied(b, Step(b, op))
  {
    assert b.count <= b.countMax && b.activeCount <= b.activeMax;
    hide MapsOk, EventsOk, CountOk, Add, Del;
    if Allowed(b, op) {
      match op
      case OpAdd(id, timeout, env) => AddTallied(b, id, timeout, env);
      case OpDel(id, backendOk) => DelTallied(b, id, backendOk);
      case OpCancel(id, backendOk) => DelTallied(b, id, backendOk);
      case _ =>
    }
  }

  lemma StepInv(b: Base, op: Op)
    requires Inv(b) && 0 < |b.queues|
    ensures Inv(Step(b, op)) && (BackendDeletes(op) && MaskExact(b) ==> MaskExact(Step(b, op)))
    ensures |Step(b, op).queues| == |b.queues|
  {
    StepTallied(b, op);
    hide Inv, MaskExact, Assign, Add, Del, Active, Activate, PrioritySet, Cancel;
    if Allowed(b, op) {
      match op
      case OpAssign(id, raw, interests, signal, edge, internal, init) =>
        AssignInv(b, id, raw, interests, signal, edge, internal, init);
      case OpAdd(id, timeout, env) => AddInv(b, id, timeout, env);
      case OpDel(id, backendOk) => DelInv(b, id, backendOk);
      case OpActive(id, res, ncalls) => ActiveInv(b, id, res, ncalls);
      case OpActivate(id) => ActivateInv(b, id);
      case OpPrioritySet(id, pri) => PrioritySetInv(b, id, pri);
      case OpCancel(id, backendOk) => CancelInv(b, id, backendOk);
    }
  }

  lemma ActivateInv(b: Base, id: Id)
    requires Inv(b) && id in b.evs
    ensures Inv(Activate(b, id).0) && (MaskExact(b) ==> MaskExact(Activate(b, id).0))
  {
    hide MapsOk, MaskExact, CountOk, InsertActive;
    InsertActiveInv(b, id);
  }

  /** A base with its priority queues, before any event. */
  function Init(npriorities: nat): Base {
    Base(map[], seq(npriorities, i => []), [], [], 0, 0, 0, 0, 0, false, map[], {})
  }

  lemma InitInv(npriorities: nat)
    ensures Inv(Init(npriorities)) && MaskExact(Init(npriorities))
  {
    var b := Init(npriorities);
    EmptyTotal(b.queues);
    assert InsertedEvents(b.evs) == {} && ActiveEvents(b.evs) == {};
    assert forall fd: nat {:trigger SlotAt(b, fd)} :: SlotAt(b, fd) == IoSlot([], 0, 0, 0);
    assert forall sig: nat {:trigger SignalsAt(b, sig)} :: SignalsAt(b, sig) == [];
  }

  lemma {:induction false} EmptyTotal(qs: seq<seq<Id>>)
    requires forall i :: 0 <= i < |qs| ==> qs[i] == []
    ensures TotalLength(qs) == 0
  {
    if qs != [] { EmptyTotal(qs[1..]); }
  }

  ghost function Run(b: Base, ops: seq<Op>): (r: Base)
    requires Inv(b) && 0 < |b.queues|
    ensures Inv(r) && |r.queues| == |b.queues|
    decreases |ops|
  {
    if ops == [] then b
    else
      StepInv(b, ops[0]);
      Run(Step(b, ops[0]), ops[1..])
  }

  lemma RunTwo(b: Base, op1: Op, op2: Op)
    requires Inv(b) && 0 < |b.queues|
    ensures Inv(Step(b, op1)) && Run(b, [op1, op2]) == Step(Step(b, op1), op2)
  {
    hide Inv, Step;
    StepInv(b, op1);
    StepInv(Step(b, op1), op2);
    assert [op1, op2][1..] == [op2] && [op2][1..] == [];
    assert Run(Step(b, op1), [op2]) == Run(Step(Step(b, op1), op2), []);
  }

  /** The largest value the event counter had in a run. */
  ghost function Peak(b: Base, ops: seq<Op>): int
    requires Inv(b) && 0 < |b.queues|
    decreases |ops|
  {
    if ops == [] then b.count
    else
      StepInv(b, ops[0]);
      Max(b.count, Peak(Step(b, ops[0]), ops[1..]))
  }

  ghost function ActivePeak(b: Base, ops: seq<Op>): int
    requires Inv(b) && 0 < |b.queues|
    decreases |ops|
  {
    if ops == [] then b.activeCount
    else
      StepInv(b, ops[0]);
      Max(b.activeCount, ActivePeak(Step(b, ops[0]), ops[1..]))
  }

  lemma {:induction false} RunMaxima(b: Base, ops: seq<Op>)
    requires Inv(b) && 0 < |b.queues|
    ensures Run(b, ops).countMax == Max(b.countMax, Peak(b, ops))
    ensures Run(b, ops).activeMax == Max(b.activeMax, ActivePeak(b, ops))
    decreases |ops|
  {
    if ops != [] {
      StepInv(b, ops[0]);
      StepTallied(b, ops[0]);
      RunMaxima(Step(b, ops[0]), ops[1..]);
    }
  }

  lemma {:induction false} RunMask(b: Base, ops: seq<Op>)
    requires Inv(b) && 0 < |b.queues| && MaskExact(b)
    requires forall i :: 0 <= i < |ops| ==> BackendDeletes(ops[i])
    ensures MaskExact(Run(b, ops))
    decreases |ops|
  {
    if ops != [] {
      StepInv(b, ops[0]);
      RunMask(Step(b, ops[0]), ops[1..]);
    }
  }

  /**
   Every run from a fresh base: the maxima are the largest values the counters had, and the masks
   are exact unless the backend refused to forget something.
   */
  lemma FreshRun(npriorities: nat, ops: seq<Op>)
    requires 0 < npriorities
    ensures Inv(Init(npriorities)) && |Init(npriorities).queues| == npriorities
    ensures var b := Init(npriorities);
            && Run(b, ops).countMax == Peak(b, ops) && Run(b, ops).activeMax == ActivePeak(b, ops)
            && ((forall i :: 0 <= i < |ops| ==> BackendDeletes(ops[i])) ==> MaskExact(Run(b, ops)))
  {
    var b := Init(npriorities);
    InitInv(npriorities);
    RunMaxima(b, ops);
    if forall i :: 0 <= i < |ops| ==> BackendDeletes(ops[i]) { RunMask(b, ops); }
  }

  // ---------------------------------------------------------------------------------------
  // What one call undoes
  // ---------------------------------------------------------------------------------------

  /** The interests of an event that no listed event on its fd has: what the backend is told. */
  function Told(b: Base, id: Id): set<Interest>
    requires id in b.evs
  {
    var e := b.evs[id];
    if e.fd < 0 then {} else OldMask(Joined(SlotAt(b, e.fd), id, e.interests)) - OldMask(SlotAt(b, e.fd))
  }

  /** Is it the only event of its signal? */
  predicate ToldSignal(b: Base, id: Id)
    requires id in b.evs
  {
    var e := b.evs[id];
    e.interests == {} && e.signal && 0 <= e.fd && SignalsAt(b, e.fd) == []
  }

  /** Every flag, list, interest count and counter is as before; only the running maximum may differ. */
  ghost predicate Restored(b: Base, b': Base) {
    && b' == b.(io := b'.io, sigs := b'.sigs, ioMask := b'.ioMask, sigMask := b'.sigMask, countMax := b'.countMax)
    && (forall fd: nat {:trigger SlotAt(b', fd)} :: SlotAt(b', fd) == SlotAt(b, fd))
    && (forall sig: nat {:trigger SignalsAt(b', sig)} :: SignalsAt(b', sig) == SignalsAt(b, sig))
  }

  /** What the backend knows after the event came and went. */
  ghost predicate Reported(b: Base, b': Base, id: Id, backendOk: bool)
    requires id in b.evs
  {
    && (forall fd: nat {:trigger MaskAt(b', fd)} ::
          MaskAt(b', fd) == if fd != b.evs[id].fd then MaskAt(b, fd)
                            else if backendOk then MaskAt(b, fd) - Told(b, id) else MaskAt(b, fd) + Told(b, id))
    && b'.sigMask == if !ToldSignal(b, id) then b.sigMask
                     else if backendOk then b.sigMask - {b.evs[id].fd} else b.sigMask + {b.evs[id].fd}
  }

  ghost predicate SameMasks(b: Base, b': Base) {
    (forall fd: nat {:trigger MaskAt(b', fd)} :: MaskAt(b', fd) == MaskAt(b, fd)) && b'.sigMask == b.sigMask
  }

  /** The backend did not know of the interests it was told of, and forgot them; or it did both not. */
  ghost predicate ForgetsAgain(b: Base, id: Id, backendOk: bool)
    requires id in b.evs
  {
    var e := b.evs[id];
    && (forall i :: i in Told(b, id) ==> (i in MaskAt(b, e.fd) <==> !backendOk))
    && (ToldSignal(b, id) ==> (e.fd in b.sigMask <==> !backendOk))
  }

  /** The base and the result after an addition that is followed by a deletion. */
  ghost function AddedAndDeleted(b: Base, id: Id, timeout: bool, env: Env, backendOk: bool): (Base, int)
    requires Inv(b) && id in b.evs
  {
    AddInv(b, id, timeout, env);
    AddShape(b, id, timeout, env);
    Del(Add(b, id, timeout, env).0, id, backendOk)
  }

  /**
   Adding an idle event, with or without a timeout, and deleting it again restores every flag,
   list, count and counter, whatever the backend answers.  The masks come back under an exact
   condition; it holds if they were exact and the backend agrees.
   */
  lemma AddThenDelete(b: Base, id: Id, timeout: bool, env: Env, backendOk: bool)
    requires Inv(b) && id in b.evs && !b.evs[id].inserted && !b.evs[id].active
    requires Add(b, id, timeout, env).1 == 0
    ensures var (b', r) := AddedAndDeleted(b, id, timeout, env, backendOk);
            && r == (if backendOk || (Told(b, id) == {} && !ToldSignal(b, id)) then 0 else -1)
            && Restored(b, b') && Reported(b, b', id, backendOk)
            && (SameMasks(b, b') <==> ForgetsAgain(b, id, backendOk))
    ensures MaskExact(b) && backendOk ==> ForgetsAgain(b, id, backendOk)
  {
    hide Inv, AddedAndDeleted, Restored, Reported, SameMasks, ForgetsAgain, Told, ToldSignal, MaskExact;
    RoundTrip(b, id, timeout, env, backendOk);
    MasksAgain(b, AddedAndDeleted(b, id, timeout, env, backendOk).0, id, backendOk);
  }

  lemma MasksAgain(b: Base, b': Base, id: Id, backendOk: bool)
    requires id in b.evs && Reported(b, b', id, backendOk)
    ensures SameMasks(b, b') <==> ForgetsAgain(b, id, backendOk)
    ensures MaskExact(b) && backendOk ==> ForgetsAgain(b, id, backendOk)
  {
    var e := b.evs[id];
    hide Told, ToldSignal;
    if 0 <= e.fd { assert MaskAt(b', e.fd) == MaskAt(b', e.fd); }
    if MaskExact(b) && backendOk { ExactForgets(b, id); }
    if e.fd < 0 { NothingTold(b, id); }
  }

  lemma NothingTold(b: Base, id: Id)
    requires id in b.evs && b.evs[id].fd < 0
    ensures Told(b, id) == {} && !ToldSignal(b, id)
  {
  }

  lemma ExactForgets(b: Base, id: Id)
    requires id in b.evs && MaskExact(b)
    ensures ForgetsAgain(b, id, true)
  {
    var e := b.evs[id];
    if 0 <= e.fd {
      assert MaskAt(b, e.fd) == OldMask(SlotAt(b, e.fd));
      assert e.fd in b.sigMask ==> SignalsAt(b, e.fd) != [];
    }
  }

  lemma RoundTrip(b: Base, id: Id, timeout: bool, env: Env, backendOk: bool)
    requires Inv(b) && id in b.evs && !b.evs[id].inserted && !b.evs[id].active
    requires Add(b, id, timeout, env).1 == 0
    ensures var (b', r) := AddedAndDeleted(b, id, timeout, env, backendOk);
            && r == (if backendOk || (Told(b, id) == {} && !ToldSignal(b, id)) then 0 else -1)
            && Restored(b, b') && Reported(b, b', id, backendOk)
  {
    var e := b.evs[id];
    hide Enlist, Unlist, Inv, Told, ToldSignal, Reported, Restored;
    if e.interests != {} || e.signal {
      var b1 := Enlist(b, id, env).0;
      assert Add(b, id, timeout, env) == Enlist(b, id, env);
      EnlistShape(b, id, env);
      assert b1.evs[id] == e.(inserted := true);
      assert Del(b1, id, backendOk) == Unlist(b1, id, backendOk);
      if e.interests != {} { IoRoundTrip(b, id, env, backendOk); } else { SignalRoundTrip(b, id, env, backendOk); }
    } else {
      assert Del(Add(b, id, timeout, env).0, id, backendOk) == (b, 0);
      NoInterest(b, id, backendOk);
    }
  }

  lemma NoInterest(b: Base, id: Id, backendOk: bool)
    requires id in b.evs && b.evs[id].interests == {} && !b.evs[id].signal
    ensures Told(b, id) == {} && !ToldSignal(b, id) && Restored(b, b) && Reported(b, b, id, backendOk)
  {
  }

  /** The two halves of the round trip on the fd map. */
  lemma IoAddIoDel(b: Base, b2: Base, id: Id, env: Env, backendOk: bool)
    requires id in b.evs && b.evs[id].interests != {} && 0 <= b.evs[id].fd && IoAdd(b, id, env).1 != -1
    requires var a := IoAdd(b, id, env).0; b2 == b.(io := a.io, ioMask := a.ioMask, countMax := b2.countMax)
    ensures var (b', r) := IoDel(b2, id, backendOk);
            && r == (if Told(b, id) == {} then 0 else if backendOk then 1 else -1)
            && Restored(b, b') && Reported(b, b', id, backendOk)
  {
    var e, a := b.evs[id], IoAdd(b, id, env).0;
    IoAddCases(b, id, env);
    var s := SlotAt(b, e.fd);
    hide IoAdd, OldMask;
    forall f: nat {:trigger SlotAt(a, f)} ensures SlotAt(b2, f) == SlotAt(a, f) && MaskAt(b2, f) == MaskAt(a, f) {}
    assert SlotAt(b2, e.fd) == SlotAt(a, e.fd) == Joined(s, id, e.interests);
    assert Left(Joined(s, id, e.interests), id, e.interests) == s;
    IoDelCases(b2, id, backendOk);
    hide IoDel;
    var b' := IoDel(b2, id, backendOk).0;
    assert b'.sigs == b.sigs && b'.sigMask == b.sigMask;
    forall f: nat {:trigger MaskAt(b', f)}
      ensures MaskAt(b', f) == if f != e.fd then MaskAt(b, f)
                               else if backendOk then MaskAt(b, f) - Told(b, id) else MaskAt(b, f) + Told(b, id)
    {
      assert SlotAt(b2, f) == SlotAt(a, f) && MaskAt(b2, f) == MaskAt(a, f);
      assert f == e.fd ==> MaskAt(b2, f) == MaskAt(b, f) + Told(b, id);
    }
    forall f: nat {:trigger SlotAt(b', f)} ensures SlotAt(b', f) == SlotAt(b, f) {
      assert SlotAt(b2, f) == SlotAt(a, f);
    }
    assert forall g: nat {:trigger SignalsAt(b', g)} :: SignalsAt(b', g) == SignalsAt(b, g);
  }

  lemma IoUnmapped(b: Base, b2: Base, id: Id, env: Env, backendOk: bool)
    requires id in b.evs && b.evs[id].fd < 0
    requires var a := IoAdd(b, id, env).0; b2 == b.(io := a.io, ioMask := a.ioMask, countMax := b2.countMax)
    ensures var (b', r) := IoDel(b2, id, backendOk);
            r == 0 && Told(b, id) == {} && Restored(b, b') && Reported(b, b', id, backendOk)
  {
    assert forall f: nat {:trigger SlotAt(b2, f)} :: SlotAt(b2, f) == SlotAt(b, f);
    assert forall f: nat {:trigger MaskAt(b2, f)} :: MaskAt(b2, f) == MaskAt(b, f);
    assert forall g: nat {:trigger SignalsAt(b2, g)} :: SignalsAt(b2, g) == SignalsAt(b, g);
  }

  lemma InsertThenRemove(a: Base, id: Id)
    requires id in a.evs && !a.evs[id].inserted
    ensures var b2 := RemoveInserted(InsertInserted(a, id), id);
            b2 == a.(countMax := b2.countMax)
  {
    assert a.evs[id := a.evs[id].(inserted := true)][id := a.evs[id]] == a.evs;
  }

  lemma IoRoundTrip(b: Base, id: Id, env: Env, backendOk: bool)
    requires id in b.evs && !b.evs[id].inserted && b.evs[id].interests != {}
    requires Enlist(b, id, env).1 == 0
    ensures !ToldSignal(b, id)
    ensures var (b', r) := Unlist(Enlist(b, id, env).0, id, backendOk);
            && r == (if backendOk || Told(b, id) == {} then 0 else -1)
            && Restored(b, b') && Reported(b, b', id, backendOk)
  {
    var a := IoAdd(b, id, env).0;
    IoAddShape(b, id, env);
    InsertThenRemove(a, id);
    var b2 := RemoveInserted(InsertInserted(a, id), id);
    hide Told, Restored, Reported;
    if 0 <= b.evs[id].fd {
      IoAddIoDel(b, b2, id, env, backendOk);
    } else {
      IoUnmapped(b, b2, id, env, backendOk);
    }
    hide IoAdd, IoDel;
  }

  lemma SignalAddSignalDel(b: Base, b2: Base, id: Id, env: Env, backendOk: bool)
    requires MapsOk(b) && id in b.evs && b.evs[id].interests == {}
    requires b.evs[id].signal && SignalAdd(b, id, env).1 != -1
    requires var a := SignalAdd(b, id, env).0; b2 == b.(sigs := a.sigs, sigMask := a.sigMask, countMax := b2.countMax)
    ensures var (b', r) := SignalDel(b2, id, backendOk);
            && r == (if ToldSignal(b, id) && !backendOk then -1 else 1)
            && Restored(b, b') && Reported(b, b', id, backendOk)
  {
    SignalAddCases(b, id, env);
    var a := SignalAdd(b, id, env).0;
    hide SignalAdd;
    var sig: nat := b.evs[id].fd;
    forall g: nat {:trigger SignalsAt(b2, g)} ensures SignalsAt(b2, g) == SignalsAt(a, g) {}
    assert SignalListOk(b.evs, sig, SignalsAt(b, sig), sig in b.sigMask);
    hide MapsOk;
    assert ([id] + SignalsAt(b, sig))[1..] == SignalsAt(b, sig);
    SignalDelCases(b2, id, backendOk);
    hide SignalDel;
    var b' := SignalDel(b2, id, backendOk).0;
    assert SignalsAt(b, sig) != [] ==> sig in b.sigMask && b'.sigMask == b.sigMask;
    forall g: nat {:trigger SignalsAt(b', g)} ensures SignalsAt(b', g) == SignalsAt(b, g) {
      assert SignalsAt(b2, g) == SignalsAt(a, g);
    }
    assert b'.io == b.io && b'.ioMask == b.ioMask;
    assert forall f: nat {:trigger SlotAt(b', f)} :: SlotAt(b', f) == SlotAt(b, f);
    NoInterestTold(b, id);
    assert forall f: nat {:trigger MaskAt(b', f)} :: MaskAt(b', f) == MaskAt(b, f);
  }

  lemma NoInterestTold(b: Base, id: Id)
    requires id in b.evs && b.evs[id].interests == {}
    ensures Told(b, id) == {}
  {
  }

  lemma SignalRoundTrip(b: Base, id: Id, env: Env, backendOk: bool)
    requires MapsOk(b) && id in b.evs && !b.evs[id].inserted && b.evs[id].interests == {} && b.evs[id].signal
    requires Enlist(b, id, env).1 == 0
    ensures Told(b, id) == {}
    ensures var (b', r) := Unlist(Enlist(b, id, env).0, id, backendOk);
            && r == (if backendOk || !ToldSignal(b, id) then 0 else -1)
            && Restored(b, b') && Reported(b, b', id, backendOk)
  {
    var a := SignalAdd(b, id, env).0;
    var b2 := RemoveInserted(InsertInserted(a, id), id);
    assert SameButMaps(b, a) && a.io == b.io && a.ioMask == b.ioMask;
    assert b2.evs == b.evs && b2 == b.(sigs := a.sigs, sigMask := a.sigMask, countMax := b2.countMax);
    SignalAddSignalDel(b, b2, id, env, backendOk);
    NoInterestTold(b, id);
    hide SignalAdd, SignalDel, Restored, Reported, MapsOk, ToldSignal;
  }

  // ---------------------------------------------------------------------------------------
  // Tear-down
  // ---------------------------------------------------------------------------------------

  /** An event that is on an fd's or a signal's list. */
  predicate Mapped(e: Ev) {
    e.inserted && (e.interests == {} || 0 <= e.fd)
  }

  /** Some listed events were deleted, and nothing else happened to any event. */
  ghost predicate Fewer(b: Base, b': Base) {
    && b'.evs.Keys == b.evs.Keys
    && |b'.queues| == |b.queues| && |b'.io| == |b.io| && |b'.sigs| == |b.sigs|
    && forall id {:trigger b'.evs[id]} :: id in b'.evs ==>
         b'.evs[id] == b.evs[id]
             || (Mapped(b.evs[id]) && b'.evs[id] == b.evs[id].(inserted := false, active := false))
  }

  /** What every stage of the tear-down keeps, if the backend answers deletions by `answers`. */
  ghost predicate Thinned(b: Base, b': Base, answers: Id -> bool) {
    && Inv(b') && Fewer(b, b')
    && (MaskExact(b) && (forall id :: answers(id)) ==> MaskExact(b'))
  }

  lemma ThinnedTrans(b: Base, b1: Base, b2: Base, answers: Id -> bool)
    requires Thinned(b, b1, answers) && Thinned(b1, b2, answers)
    ensures Thinned(b, b2, answers)
  {
    hide Inv, MaskExact;
  }

  lemma DelThins(b: Base, id: Id, answers: Id -> bool)
    requires Inv(b) && id in b.evs && Mapped(b.evs[id])
    ensures Thinned(b, Del(b, id, answers(id)).0, answers)
  {
    DelInv(b, id, answers(id));
    DelFewer(b, id, answers(id));
    hide Inv, MaskExact, Del, Fewer;
  }

  lemma PrioritiesOk(b: Base)
    requires Inv(b)
    ensures forall id :: id in b.evs ==> b.evs[id].pri < |b.queues|
  {
  }

  lemma UnlistSizes(b: Base, id: Id, backendOk: bool)
    requires id in b.evs
    ensures var b' := Unlist(b, id, backendOk).0; |b'.io| == |b.io| && |b'.sigs| == |b.sigs|
  {
  }

  lemma DelFewer(b: Base, id: Id, backendOk: bool)
    requires Inv(b) && id in b.evs && Mapped(b.evs[id])
    ensures Fewer(b, Del(b, id, backendOk).0)
  {
    PrioritiesOk(b);
    hide Inv;
    DelFlags(b, id, backendOk);
    DelShape(b, id, backendOk);
    UnlistSizes(RemoveActive(b, id), id, backendOk);
    hide Unlist;
    assert |Del(b, id, backendOk).0.io| == |b.io| && |Del(b, id, backendOk).0.sigs| == |b.sigs|;
    hide Del;
  }

  /** A deletion that takes the head off an fd's list. */
  lemma DelHead(b: Base, fd: nat, answers: Id -> bool)
    requires Inv(b) && SlotAt(b, fd).events != []
    ensures var id := SlotAt(b, fd).events[0];
            && id in b.evs
            && |SlotAt(Del(b, id, answers(id)).0, fd).events| < |SlotAt(b, fd).events|
            && Thinned(b, Del(b, id, answers(id)).0, answers)
  {
    var id := SlotAt(b, fd).events[0];
    assert SlotOk(b.evs, fd, SlotAt(b, fd), MaskAt(b, fd)) && id in SlotAt(b, fd).events;
    DelThins(b, id, answers);
    hide Inv, Thinned;
    var b2 := RemoveInserted(RemoveActive(b, id), id);
    assert SlotAt(b2, fd) == SlotAt(b, fd);
    IoDelCases(b2, id, answers(id));
    RemoveNoDup(SlotAt(b, fd).events, id);
  }

  lemma DelSignalHead(b: Base, sig: nat, answers: Id -> bool)
    requires Inv(b) && SignalsAt(b, sig) != []
    ensures var id := SignalsAt(b, sig)[0];
            && id in b.evs
            && |SignalsAt(Del(b, id, answers(id)).0, sig)| < |SignalsAt(b, sig)|
            && Thinned(b, Del(b, id, answers(id)).0, answers)
  {
    var id := SignalsAt(b, sig)[0];
    assert SignalListOk(b.evs, sig, SignalsAt(b, sig), sig in b.sigMask) && id in SignalsAt(b, sig);
    DelThins(b, id, answers);
    hide Inv, Thinned;
    var b2 := RemoveInserted(RemoveActive(b, id), id);
    assert SignalsAt(b2, sig) == SignalsAt(b, sig);
    SignalDelCases(b2, id, answers(id));
    RemoveNoDup(SignalsAt(b, sig), id);
  }

  /** lu_event_delete_all_in_dlist for one fd. */
  ghost function DeleteSlot(b: Base, fd: nat, answers: Id -> bool): Base
    requires Inv(b)
    decreases |SlotAt(b, fd).events|
  {
    var s := SlotAt(b, fd).events;
    if s == [] then b
    else
      DelHead(b, fd, answers);
      hide Inv, Del;
      DeleteSlot(Del(b, s[0], answers(s[0])).0, fd, answers)
  }

  ghost function DeleteSignals(b: Base, sig: nat, answers: Id -> bool): Base
    requires Inv(b)
    decreases |SignalsAt(b, sig)|
  {
    var s := SignalsAt(b, sig);
    if s == [] then b
    else
      DelSignalHead(b, sig, answers);
      hide Inv, Del;
      DeleteSignals(Del(b, s[0], answers(s[0])).0, sig, answers)
  }

  lemma {:induction false} DeleteSlotEmpties(b: Base, fd: nat, answers: Id -> bool)
    requires Inv(b)
    ensures var b' := DeleteSlot(b, fd, answers);
            Thinned(b, b', answers) && SlotAt(b', fd).events == []
    decreases |SlotAt(b, fd).events|
  {
    var s := SlotAt(b, fd).events;
    PrioritiesOk(b);
    hide Inv, MaskExact, Del;
    if s != [] {
      DelHead(b, fd, answers);
      var b1 := Del(b, s[0], answers(s[0])).0;
      DeleteSlotEmpties(b1, fd, answers);
      ThinnedTrans(b, b1, DeleteSlot(b, fd, answers), answers);
    }
  }

  lemma {:induction false} DeleteSignalsEmpties(b: Base, sig: nat, answers: Id -> bool)
    requires Inv(b)
    ensures var b' := DeleteSignals(b, sig, answers);
            Thinned(b, b', answers) && SignalsAt(b', sig) == []
    decreases |SignalsAt(b, sig)|
  {
    var s := SignalsAt(b, sig);
    PrioritiesOk(b);
    hide Inv, MaskExact, Del;
    if s != [] {
      DelSignalHead(b, sig, answers);
      var b1 := Del(b, s[0], answers(s[0])).0;
      DeleteSignalsEmpties(b1, sig, answers);
      ThinnedTrans(b, b1, DeleteSignals(b, sig, answers), answers);
    }
  }

  /** The foreach loops over the entries below `n`. */
  ghost function DeleteSignalsBelow(b: Base, n: nat, answers: Id -> bool): (r: Base)
    requires Inv(b)
    ensures Inv(r)
  {
    hide Inv, DeleteSignals;
    if n == 0 then b
    else
      var b' := DeleteSignalsBelow(b, n - 1, answers);
      DeleteSignalsEmpties(b', n - 1, answers);
      DeleteSignals(b', n - 1, answers)
  }

  ghost function DeleteSlotsBelow(b: Base, n: nat, answers: Id -> bool): (r: Base)
    requires Inv(b)
    ensures Inv(r)
  {
    hide Inv, DeleteSlot;
    if n == 0 then b
    else
      var b' := DeleteSlotsBelow(b, n - 1, answers);
      DeleteSlotEmpties(b', n - 1, answers);
      DeleteSlot(b', n - 1, answers)
  }

  /** lu_evmap_delete_all_: the signals first, then the fds. */
  ghost function DeleteAll(b: Base, answers: Id -> bool): (r: Base)
    requires Inv(b)
    ensures Inv(r)
  {
    hide Inv;
    DeleteSlotsBelow(DeleteSignalsBelow(b, |b.sigs|, answers), |b.io|, answers)
  }

  /** With fewer inserted events no list that was empty fills up. */
  lemma FewerKeepsEmpty(b: Base, b': Base)
    requires Inv(b) && Inv(b') && Fewer(b, b')
    ensures forall fd: nat {:trigger SlotAt(b', fd)} :: SlotAt(b, fd).events == [] ==> SlotAt(b', fd).events == []
    ensures forall sig: nat {:trigger SignalsAt(b', sig)} :: SignalsAt(b, sig) == [] ==> SignalsAt(b', sig) == []
  {
    forall fd: nat {:trigger SlotAt(b', fd)} ensures SlotAt(b, fd).events == [] ==> SlotAt(b', fd).events == [] {
      var s := SlotAt(b', fd).events;
      assert SlotOk(b.evs, fd, SlotAt(b, fd), MaskAt(b, fd)) && SlotOk(b'.evs, fd, SlotAt(b', fd), MaskAt(b', fd));
      assert s != [] ==> s[0] in s && s[0] in SlotAt(b, fd).events;
    }
    forall sig: nat {:trigger SignalsAt(b', sig)} ensures SignalsAt(b, sig) == [] ==> SignalsAt(b', sig) == [] {
      var s := SignalsAt(b', sig);
      assert SignalListOk(b.evs, sig, SignalsAt(b, sig), sig in b.sigMask)
          && SignalListOk(b'.evs, sig, s, sig in b'.sigMask);
      assert s != [] ==> s[0] in s && s[0] in SignalsAt(b, sig);
    }
  }

  lemma {:induction false} DeleteSignalsBelowEmpties(b: Base, n: nat, answers: Id -> bool)
    requires Inv(b)
    ensures var b' := DeleteSignalsBelow(b, n, answers);
            Thinned(b, b', answers) && forall sig: nat {:trigger SignalsAt(b', sig)} :: sig < n ==>
                SignalsAt(b', sig) == []
  {
    hide Inv, MaskExact, DeleteSignals;
    if n != 0 {
      DeleteSignalsBelowEmpties(b, n - 1, answers);
      var b1 := DeleteSignalsBelow(b, n - 1, answers);
      DeleteSignalsEmpties(b1, n - 1, answers);
      FewerKeepsEmpty(b1, DeleteSignals(b1, n - 1, answers));
      ThinnedTrans(b, b1, DeleteSignals(b1, n - 1, answers), answers);
      hide Thinned;
    }
  }

  lemma {:induction false} DeleteSlotsBelowEmpties(b: Base, n: nat, answers: Id -> bool)
    requires Inv(b)
    ensures var b' := DeleteSlotsBelow(b, n, answers);
            Thinned(b, b', answers) && forall fd: nat {:trigger SlotAt(b', fd)} :: fd < n ==>
                SlotAt(b', fd).events == []
  {
    hide Inv, MaskExact, DeleteSlot;
    if n != 0 {
      DeleteSlotsBelowEmpties(b, n - 1, answers);
      var b1 := DeleteSlotsBelow(b, n - 1, answers);
      DeleteSlotEmpties(b1, n - 1, answers);
      FewerKeepsEmpty(b1, DeleteSlot(b1, n - 1, answers));
      ThinnedTrans(b, b1, DeleteSlot(b1, n - 1, answers), answers);
      hide Thinned;
    }
  }

  /** After the two loops no list holds an event. */
  lemma DeleteAllThins(b: Base, answers: Id -> bool)
    requires Inv(b)
    ensures var b' := DeleteAll(b, answers);
            && Thinned(b, b', answers)
            && (forall fd: nat {:trigger SlotAt(b', fd)} :: SlotAt(b', fd).events == [])
            && (forall sig: nat {:trigger SignalsAt(b', sig)} :: SignalsAt(b', sig) == [])
  {
    hide Inv, MaskExact;
    var b1 := DeleteSignalsBelow(b, |b.sigs|, answers);
    DeleteSignalsBelowEmpties(b, |b.sigs|, answers);
    var b' := DeleteAll(b, answers);
    DeleteSlotsBelowEmpties(b1, |b.io|, answers);
    hide DeleteSignalsBelow, DeleteSlotsBelow;
    FewerKeepsEmpty(b1, b');
    ThinnedTrans(b, b1, b', answers);
  }

  lemma EmptyListsUnmapped(b: Base, id: Id)
    requires Inv(b) && id in b.evs
    requires forall fd: nat {:trigger SlotAt(b, fd)} :: SlotAt(b, fd).events == []
    requires forall sig: nat {:trigger SignalsAt(b, sig)} :: SignalsAt(b, sig) == []
    ensures !Mapped(b.evs[id])
  {
    var fd := b.evs[id].fd;
    if 0 <= fd {
      assert SlotOk(b.evs, fd, SlotAt(b, fd), MaskAt(b, fd))
          && SignalListOk(b.evs, fd, SignalsAt(b, fd), fd in b.sigMask);
      assert id !in SlotAt(b, fd).events && id !in SignalsAt(b, fd);
    }
  }

  /**
   Deleting all mapped events, whatever the backend answers: exactly the mapped events lose
   their flags, and every list and every interest count ends at zero.
   */
  lemma DeleteAllExact(b: Base, answers: Id -> bool)
    requires Inv(b)
    ensures var b' := DeleteAll(b, answers);
            && b'.evs.Keys == b.evs.Keys
            && (forall id :: id in b.evs ==>
                  b'.evs[id] == if Mapped(b.evs[id]) then b.evs[id].(inserted := false, active := false)
                      else b.evs[id])
            && (forall fd: nat {:trigger SlotAt(b', fd)} :: SlotAt(b', fd) == IoSlot([], 0, 0, 0))
            && (forall sig: nat {:trigger SignalsAt(b', sig)} :: SignalsAt(b', sig) == [])
  {
    hide DeleteAll;
    DeleteAllThins(b, answers);
    var b' := DeleteAll(b, answers);
    forall id | id in b'.evs ensures !Mapped(b'.evs[id]) {
      EmptyListsUnmapped(b', id);
    }
    forall fd: nat {:trigger SlotAt(b', fd)} ensures SlotAt(b', fd) == IoSlot([], 0, 0, 0) {
      assert SlotOk(b'.evs, fd, SlotAt(b', fd), MaskAt(b', fd));
    }
  }

  /** If the backend agrees to every deletion, it ends knowing no interest at all. */
  lemma DeleteAllUntells(b: Base, answers: Id -> bool)
    requires Inv(b) && MaskExact(b) && forall id :: answers(id)
    ensures var b' := DeleteAll(b, answers);
            && (forall fd: nat {:trigger MaskAt(b', fd)} :: MaskAt(b', fd) == {})
            && (forall sig: nat :: sig !in b'.sigMask)
  {
    hide DeleteAll;
    DeleteAllThins(b, answers);
    DeleteAllExact(b, answers);
    hide Inv;
    var b' := DeleteAll(b, answers);
    forall fd: nat {:trigger MaskAt(b', fd)} ensures MaskAt(b', fd) == {} {
      assert SlotAt(b', fd) == IoSlot([], 0, 0, 0);
    }
    forall sig: nat ensures sig !in b'.sigMask {
      assert SignalsAt(b', sig) == [];
    }
  }
}
