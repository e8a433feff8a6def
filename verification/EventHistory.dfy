/**
 What the state of a base tells about the run that led to it: in which order the callbacks became
 active, which results an active event holds, and whether the loop was told to go on.
 */
module EventHistory {
  import opened EventModel
  import opened EventInvariant
  import opened EventRuns
  import opened EventEffects

  lemma {:induction false} RunSnoc(b: Base, ops: seq<Op>, op: Op)
    requires Inv(b) && 0 < |b.queues|
    ensures Run(b, ops + [op]) == Step(Run(b, ops), op)
    decreases |ops|
  {
    hide Inv, Step;
    if ops == [] {
      assert ops + [op] == [op] && [op][1..] == [];
      StepInv(b, op);
      assert Run(Step(b, op), []) == Step(b, op);
    } else {
      StepInv(b, ops[0]);
      assert (ops + [op])[1..] == ops[1..] + [op];
      RunSnoc(Step(b, ops[0]), ops[1..], op);
    }
  }

  /** The state after the first `k` operations. */
  ghost function After(b: Base, ops: seq<Op>, k: nat): (r: Base)
    requires Inv(b) && 0 < |b.queues| && k <= |ops|
    ensures Inv(r) && |r.queues| == |b.queues|
  {
    hide Inv;
    Run(b, ops[..k])
  }

  lemma AfterStep(b: Base, ops: seq<Op>, k: nat)
    requires Inv(b) && 0 < |b.queues| && k < |ops|
    ensures After(b, ops, k + 1) == Step(After(b, ops, k), ops[k])
  {
    hide Inv, Step;
    assert ops[..k + 1] == ops[..k] + [ops[k]];
    RunSnoc(b, ops[..k], ops[k]);
  }

  predicate IsActive(b: Base, id: Id) {
    id in b.evs && b.evs[id].active
  }

  // ---------------------------------------------------------------------------------------
  // One step
  // ---------------------------------------------------------------------------------------

  /** Does the operation activate the event? */
  predicate Activates(b: Base, op: Op, id: Id) {
    (op.OpActive? || op.OpActivate?) && op.id == id && id in b.evs && !b.evs[id].active
  }

  /** The results that the operation gives to the event. */
  function GivenBy(op: Op, id: Id): set<What> {
    if op.OpActive? && op.id == id then op.res else {}
  }

  /** The call count that an event has after it became active by the operation. */
  function Calls(e: Ev, op: Op): int {
    if op.OpActive? && e.signal then op.ncalls else e.ncalls
  }

  /** Queues only lose events, and gain at their tails the ones that become active. */
  ghost predicate QueueStep(b: Base, b': Base, i: int)
    requires 0 <= i < |b.queues| == |b'.queues|
  {
    || b'.queues[i] == b.queues[i]
    || (exists x :: Dropped(b.queues[i], x, b'.queues[i]) && !IsActive(b', x))
    || (exists x :: b'.queues[i] == b.queues[i] + [x] && !IsActive(b, x) && IsActive(b', x))
  }

  /** What a step does to queues and to the flags of one event. */
  ghost predicate StepFacts(b: Base, op: Op, b': Base, id: Id) {
    && |b'.queues| == |b.queues| && (forall i :: 0 <= i < |b.queues| ==> QueueStep(b, b', i))
    && (IsActive(b, id) && IsActive(b', id) ==>
          b'.evs[id] == b.evs[id].(res := b.evs[id].res + GivenBy(op, id)))
    && (!IsActive(b, id) && IsActive(b', id) <==> Activates(b, op, id))
    && (Activates(b, op, id) ==>
          && b'.evs[id].res == (if op.OpActive? then op.res else b.evs[id].res)
          && b'.evs[id] == b.evs[id].(active := true, res := b'.evs[id].res, ncalls := Calls(b.evs[id], op)))
    && b'.running == b.running
    && (b'.continue_ <==> b.continue_ || Interrupts(b, op))
  }

  /** Does the operation activate an event that goes before the one that is running? */
  predicate Interrupts(b: Base, op: Op) {
    op.OpActive? && Activates(b, op, op.id) && b.evs[op.id].pri < b.running
  }

  /** A step that only clears flags of `x`, and takes it off its queue if it was active. */
  ghost predicate OnlyClears(b: Base, b': Base, x: Id) {
    && x in b.evs && x in b'.evs && b'.evs == b.evs[x := b'.evs[x]]
    && b'.evs[x] == b.evs[x].(inserted := b'.evs[x].inserted, active := b'.evs[x].active)
    && (b'.evs[x].active ==> b.evs[x].active && b'.evs[x] == b.evs[x])
    && b.evs[x].pri < |b.queues| == |b'.queues|
    && (if b.evs[x].active && !b'.evs[x].active then
          && Dropped(b.queues[b.evs[x].pri], x, b'.queues[b.evs[x].pri])
          && b'.queues == b.queues[b.evs[x].pri := b'.queues[b.evs[x].pri]]
        else b'.queues == b.queues)
    && b'.continue_ == b.continue_ && b'.running == b.running
  }

  lemma ClearsFacts(b: Base, op: Op, b': Base, x: Id, id: Id)
    requires OnlyClears(b, b', x) && !op.OpActive? && !op.OpActivate?
    ensures StepFacts(b, op, b', id)
  {
    hide Dropped;
    forall i | 0 <= i < |b.queues| ensures QueueStep(b, b', i) {
      if b'.queues[i] != b.queues[i] { assert i == b.evs[x].pri && !IsActive(b', x); }
    }
    if id == x && b'.evs[x].active { SameRes(b.evs[x]); }
  }

  lemma SameRes(e: Ev)
    ensures e == e.(res := e.res + {})
  {
    assert e.res + {} == e.res;
  }

  /** A step that touches one event, which is active neither before nor after it. */
  lemma QuietFacts(b: Base, op: Op, b': Base, x: Id, id: Id)
    requires !IsActive(b, x) && x in b'.evs && !b'.evs[x].active && b'.evs == b.evs[x := b'.evs[x]]
    requires b'.queues == b.queues && b'.continue_ == b.continue_ && b'.running == b.running
    requires !op.OpActive? && !op.OpActivate?
    ensures StepFacts(b, op, b', id)
  {
    if IsActive(b, id) { SameRes(b.evs[id]); }
  }

  lemma IdleFacts(b: Base, op: Op, id: Id)
    requires op.OpActive? || op.OpActivate? ==> op.id !in b.evs
    ensures StepFacts(b, op, b, id)
  {
    if IsActive(b, id) { SameRes(b.evs[id]); }
  }

  lemma ActiveFacts(b: Base, op: Op, b': Base, id: Id)
    requires Inv(b) && op.OpActive? && op.id in b.evs
    requires b.evs[op.id].pri < |b.queues| && b' == Active(b, op.id, op.res, op.ncalls)
    ensures StepFacts(b, op, b', id)
  {
    var x := op.id;
    ActiveExact(b, x, op.res, op.ncalls);
    hide Inv, Active;
    if !b.evs[x].active {
      forall i | 0 <= i < |b.queues| ensures QueueStep(b, b', i) {
        if i == b.evs[x].pri { assert b'.queues[i] == b.queues[i] + [x] && !IsActive(b, x) && IsActive(b', x); }
      }
    }
    if IsActive(b, id) { SameRes(b.evs[id]); }
  }

  lemma ActivateFacts(b: Base, op: Op, b': Base, id: Id)
    requires Inv(b) && op.OpActivate? && op.id in b.evs
    requires b.evs[op.id].pri < |b.queues| && b' == Activate(b, op.id).0
    ensures StepFacts(b, op, b', id)
  {
    var x := op.id;
    hide Inv;
    if !b.evs[x].active {
      forall i | 0 <= i < |b.queues| ensures QueueStep(b, b', i) {
        if i == b.evs[x].pri { assert b'.queues[i] == b.queues[i] + [x] && !IsActive(b, x) && IsActive(b', x); }
      }
    }
    if IsActive(b, id) { SameRes(b.evs[id]); }
  }

  lemma AddClears(b: Base, id: Id, timeout: bool, env: Env)
    requires Inv(b) && id in b.evs
    ensures b.evs[id].pri < |b.queues| && OnlyClears(b, Add(b, id, timeout, env).0, id)
  {
    AddExact(b, id, timeout, env);
    hide Inv, Add, Dropped, AddFails;
    var e := b.evs[id];
    assert b.evs == b.evs[id := e];
  }

  lemma DelClears(b: Base, id: Id, backendOk: bool)
    requires Inv(b) && id in b.evs
    ensures b.evs[id].pri < |b.queues| && OnlyClears(b, Del(b, id, backendOk).0, id)
  {
    DelExact(b, id, backendOk);
    hide Inv, Del, Dropped, LastOne;
  }

  lemma CancelClears(b: Base, id: Id, backendOk: bool)
    requires Inv(b) && id in b.evs
    ensures b.evs[id].pri < |b.queues| && OnlyClears(b, Cancel(b, id, backendOk).0, id)
  {
    CancelExact(b, id, backendOk);
    DelClears(b, id, backendOk);
    hide Inv, Cancel, Dropped, Del;
  }

  lemma StepEffect(b: Base, op: Op, id: Id)
    requires Inv(b) && 0 < |b.queues|
    ensures StepFacts(b, op, Step(b, op), id)
  {
    PrioritiesOk(b);
    hide Inv, StepFacts, OnlyClears, Add, Del, Active, Activate, Cancel;
    if !Allowed(b, op) {
      IdleFacts(b, op, id);
    } else {
      match op
      case OpAssign(x, raw, interests, signal, edge, internal, init) => QuietFacts(b, op, Step(b, op), x, id);
      case OpAdd(x, timeout, env) =>
        AddClears(b, x, timeout, env);
        ClearsFacts(b, op, Step(b, op), x, id);
      case OpDel(x, backendOk) =>
        DelClears(b, x, backendOk);
        ClearsFacts(b, op, Step(b, op), x, id);
      case OpCancel(x, backendOk) =>
        CancelClears(b, x, backendOk);
        ClearsFacts(b, op, Step(b, op), x, id);
      case OpPrioritySet(x, pri) =>
        if b.evs[x].active || PrioritySet(b, x, pri).1 != 0 {
          IdleFacts(b, op, id);
        } else {
          QuietFacts(b, op, Step(b, op), x, id);
        }
      case OpActive(x, res, ncalls) => ActiveFacts(b, op, Step(b, op), id);
      case OpActivate(x) => ActivateFacts(b, op, Step(b, op), id);
    }
  }

  // ---------------------------------------------------------------------------------------
  // Whole runs
  // ---------------------------------------------------------------------------------------

  /** The number of the operation by which the event became active last, counted from 1; 0 if none did. */
  ghost function Since(b: Base, ops: seq<Op>, k: nat, id: Id): (r: nat)
    requires Inv(b) && 0 < |b.queues| && k <= |ops|
    ensures r <= k
  {
    hide Inv;
    if k == 0 then 0
    else if !IsActive(After(b, ops, k - 1), id) && IsActive(After(b, ops, k), id) then k
    else Since(b, ops, k - 1, id)
  }

  /** The queues hold the callbacks in the order in which they became active. */
  ghost predicate Fifo(b: Base, ops: seq<Op>, k: nat)
    requires Inv(b) && 0 < |b.queues| && k <= |ops|
  {
    hide Inv;
    forall i, j, l :: 0 <= i < |b.queues| && 0 <= j < l < |After(b, ops, k).queues[i]| ==>
      Since(b, ops, k, After(b, ops, k).queues[i][j]) < Since(b, ops, k, After(b, ops, k).queues[i][l])
  }

  lemma InQueueActive(b: Base, i: nat)
    requires Inv(b) && i < |b.queues|
    ensures forall j {:trigger b.queues[i][j]} :: 0 <= j < |b.queues[i]| ==> IsActive(b, b.queues[i][j])
  {
    forall j {:trigger b.queues[i][j]} | 0 <= j < |b.queues[i]| ensures IsActive(b, b.queues[i][j]) {
      assert b.queues[i][j] in b.queues[i];
    }
  }

  lemma {:induction false} FifoPrefix(b: Base, ops: seq<Op>, k: nat)
    requires Inv(b) && 0 < |b.queues| && k <= |ops| && forall i :: 0 <= i < |b.queues| ==> b.queues[i] == []
    ensures Fifo(b, ops, k)
  {
    hide Inv, After, Step, Since, StepFacts;
    if k == 0 {
      AfterNone(b, ops);
    } else {
      FifoPrefix(b, ops, k - 1);
      AfterStep(b, ops, k - 1);
      forall i, j, l | 0 <= i < |b.queues| && 0 <= j < l < |After(b, ops, k).queues[i]|
        ensures Since(b, ops, k, After(b, ops, k).queues[i][j]) < Since(b, ops, k, After(b, ops, k).queues[i][l])
      {
        FifoStep(b, ops, k, i, j, l);
      }
    }
  }

  lemma AfterNone(b: Base, ops: seq<Op>)
    requires Inv(b) && 0 < |b.queues|
    ensures After(b, ops, 0) == b
  {
    hide Inv;
    assert ops[..0] == [];
  }

  lemma SinceStep(b: Base, ops: seq<Op>, k: nat, id: Id)
    requires Inv(b) && 0 < |b.queues| && 0 < k <= |ops|
    ensures Since(b, ops, k, id) ==
        if !IsActive(After(b, ops, k - 1), id) && IsActive(After(b, ops, k), id) then k else Since(b, ops, k - 1, id)
  {
    hide Inv;
  }

  /** Two places of a queue, and where they were before. */
  lemma Places(c: Base, d: Base, i: nat, j: nat, l: nat) returns (j': nat, l': nat)
    requires i < |c.queues| == |d.queues| && QueueStep(c, d, i) && j < l < |d.queues[i]|
    ensures j' < |c.queues[i]| && c.queues[i][j'] == d.queues[i][j] && j' < l'
    ensures if l' < |c.queues[i]| then c.queues[i][l'] == d.queues[i][l]
            else !IsActive(c, d.queues[i][l]) && IsActive(d, d.queues[i][l])
  {
    var q, q' := c.queues[i], d.queues[i];
    j', l' := j, l;
    if q' == q {
    } else if z :| Dropped(q, z, q') && !IsActive(d, z) {
      var m :| 0 <= m < |q| && q[m] == z && q' == q[..m] + q[m + 1..];
      j', l' := if j < m then j else j + 1, if l < m then l else l + 1;
    } else {
      var z :| q' == q + [z] && !IsActive(c, z) && IsActive(d, z);
    }
  }

  lemma FifoStep(b: Base, ops: seq<Op>, k: nat, i: nat, j: nat, l: nat)
    requires Inv(b) && 0 < |b.queues| && 0 < k <= |ops| && i < |b.queues| && Fifo(b, ops, k - 1)
    requires j < l < |After(b, ops, k).queues[i]|
    ensures Since(b, ops, k, After(b, ops, k).queues[i][j]) < Since(b, ops, k, After(b, ops, k).queues[i][l])
  {
    hide Inv, After, Step, Since, QueueStep;
    var c, d := After(b, ops, k - 1), After(b, ops, k);
    AfterStep(b, ops, k - 1);
    StepEffect(c, ops[k - 1], 0);
    var j', l' := Places(c, d, i, j, l);
    var x, y := d.queues[i][j], d.queues[i][l];
    InQueueActive(c, i);
    hide IsActive;
    assert IsActive(c, c.queues[i][j']);
    SinceStep(b, ops, k, x);
    SinceStep(b, ops, k, y);
    if l' < |c.queues[i]| { assert IsActive(c, c.queues[i][l']); }
  }

  /** From a base without active callbacks, every run leaves the queues in order of activation. */
  lemma RunFifo(b: Base, ops: seq<Op>)
    requires Inv(b) && 0 < |b.queues| && forall i :: 0 <= i < |b.queues| ==> b.queues[i] == []
    ensures Fifo(b, ops, |ops|) && After(b, ops, |ops|) == Run(b, ops)
  {
    hide Inv;
    FifoPrefix(b, ops, |ops|);
    assert ops[..|ops|] == ops;
  }

  /** The results given to the event by the operations from `j` on, below `k`. */
  function Given(ops: seq<Op>, j: nat, k: nat, id: Id): set<What>
    requires j <= k <= |ops|
  {
    if j == k then {} else Given(ops, j, k - 1, id) + GivenBy(ops[k - 1], id)
  }

  /** What the event holds since it became active by operation `s`. */
  ghost predicate Holds(b: Base, ops: seq<Op>, s: nat, k: nat, id: Id)
    requires Inv(b) && 0 < |b.queues| && 0 < s <= k <= |ops|
  {
    hide Inv;
    var c, d, op := After(b, ops, s - 1), After(b, ops, k), ops[s - 1];
    && Activates(c, op, id) && IsActive(d, id)
    && d.evs[id].res == (if op.OpActive? then op.res else c.evs[id].res) + Given(ops, s, k, id)
    && d.evs[id].ncalls == (if op.OpActive? && c.evs[id].signal then op.ncalls else c.evs[id].ncalls)
    && d.evs[id].pri == c.evs[id].pri
  }

  lemma {:induction false} HoldsPrefix(b: Base, ops: seq<Op>, k: nat, id: Id)
    requires Inv(b) && 0 < |b.queues| && k <= |ops| && !IsActive(b, id) && IsActive(After(b, ops, k), id)
    ensures 0 < Since(b, ops, k, id) && Holds(b, ops, Since(b, ops, k, id), k, id)
  {
    hide Inv, After, Step, Since;
    AfterNone(b, ops);
    var c, d := After(b, ops, k - 1), After(b, ops, k);
    AfterStep(b, ops, k - 1);
    StepEffect(c, ops[k - 1], id);
    SinceStep(b, ops, k, id);
    if IsActive(c, id) {
      HoldsPrefix(b, ops, k - 1, id);
      var s := Since(b, ops, k - 1, id);
      assert Given(ops, s, k, id) == Given(ops, s, k - 1, id) + GivenBy(ops[k - 1], id);
    } else {
      assert Given(ops, k, k, id) == {};
      SameRes(d.evs[id]);
    }
  }

  /**
   Over every run, for an event that is active at its end: its results are those of the operation
   that made it active and all given since, its call count is that operation's for a signal event
   only, and its priority is the one it had then.
   */
  lemma RunResults(b: Base, ops: seq<Op>, id: Id)
    requires Inv(b) && 0 < |b.queues| && !IsActive(b, id) && IsActive(Run(b, ops), id)
    ensures var s := Since(b, ops, |ops|, id);
            && 0 < s && Holds(b, ops, s, |ops|, id) && After(b, ops, |ops|) == Run(b, ops)
  {
    hide Inv, Holds, Since;
    assert ops[..|ops|] == ops;
    HoldsPrefix(b, ops, |ops|, id);
  }

  /** The loop is told to go on exactly if some operation activated an event before the running one. */
  lemma {:induction false} ContinuePrefix(b: Base, ops: seq<Op>, k: nat)
    requires Inv(b) && 0 < |b.queues| && k <= |ops|
    ensures After(b, ops, k).running == b.running
    ensures After(b, ops, k).continue_ <==>
              b.continue_ || exists j :: 0 <= j < k && Interrupts(After(b, ops, j), ops[j])
  {
    hide Inv, After, Step, Interrupts;
    if k == 0 {
      AfterNone(b, ops);
    } else {
      ContinuePrefix(b, ops, k - 1);
      AfterStep(b, ops, k - 1);
      StepEffect(After(b, ops, k - 1), ops[k - 1], 0);
    }
  }

  lemma RunContinue(b: Base, ops: seq<Op>)
    requires Inv(b) && 0 < |b.queues|
    ensures Run(b, ops).continue_ <==>
              b.continue_ || exists j :: 0 <= j < |ops| && Interrupts(After(b, ops, j), ops[j])
  {
    hide Inv, Interrupts;
    assert ops[..|ops|] == ops;
    ContinuePrefix(b, ops, |ops|);
  }
}
