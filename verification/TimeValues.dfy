/**
 The timeval macros of include/lu_util.h and the repair of a clock that jumps back
 (lu_evutil_adjust_monotonic_time in src/lu_evutil_time.c).
 */
module TimeValues {

  /** struct timeval; the fields are as wide as they need to be. */
  datatype Timeval = Timeval(sec: int, usec: int)

  const MICROS := 1000000
  const ZERO := Timeval(0, 0)

  predicate Normal(t: Timeval) {
    0 <= t.usec < MICROS
  }

  function Micros(t: Timeval): int {
    t.sec * MICROS + t.usec
  }

  /** lu_evutil_timercmp with the comparison `<`. */
  predicate Earlier(t: Timeval, u: Timeval) {
    if t.sec == u.sec then t.usec < u.usec else t.sec < u.sec
  }

  /** lu_evutil_timeradd. */
  function Add(t: Timeval, u: Timeval): Timeval {
    var sec, usec := t.sec + u.sec, t.usec + u.usec;
    if usec >= MICROS then Timeval(sec + 1, usec - MICROS) else Timeval(sec, usec)
  }

  /** lu_evutil_timersub. */
  function Sub(t: Timeval, u: Timeval): Timeval {
    var sec, usec := t.sec - u.sec, t.usec - u.usec;
    if usec < 0 then Timeval(sec - 1, usec + MICROS) else Timeval(sec, usec)
  }

  /** On normalised values the macros are arithmetic on microseconds, and stay normalised. */
  lemma MacrosAreArithmetic(t: Timeval, u: Timeval)
    requires Normal(t) && Normal(u)
    ensures Normal(Add(t, u)) && Micros(Add(t, u)) == Micros(t) + Micros(u)
    ensures Normal(Sub(t, u)) && Micros(Sub(t, u)) == Micros(t) - Micros(u)
    ensures Earlier(t, u) <==> Micros(t) < Micros(u)
    ensures Micros(t) == Micros(u) ==> t == u
  {
  }

  // ---------------------------------------------------------------------------------------
  // The clock
  // ---------------------------------------------------------------------------------------

  /** The correction and the last time given out. */
  datatype Clock = Clock(adjust: Timeval, last: Timeval)

  /** One call: the new clock and the repaired time. */
  function Adjusted(c: Clock, tv: Timeval): (Clock, Timeval) {
    var t := Add(tv, c.adjust);
    if Earlier(t, c.last) then (Clock(Add(Sub(c.last, t), c.adjust), c.last), c.last)
    else (Clock(c.adjust, t), t)
  }

  /** lu_evutil_monotonic_timer_t. */
  class MonotonicTimer {
    var adjust: Timeval
    var last: Timeval

    constructor ()
      ensures State() == Clock(ZERO, ZERO)
    {
      adjust, last := ZERO, ZERO;
    }

    function State(): Clock
      reads this
    {
      Clock(adjust, last)
    }

    /** lu_evutil_adjust_monotonic_time: `tv` comes in as read and goes out repaired. */
    method Adjust(tv: Timeval) returns (tv': Timeval)
      modifies this
      ensures (State(), tv') == Adjusted(old(State()), tv)
    {
      tv' := Add(tv, adjust);
      if Earlier(tv', last) {
        var back := Sub(last, tv');
        adjust := Add(back, adjust);
        tv' := last;
      }
      last := tv';
    }
  }

  /** The clock after a run of readings, from a zeroed timer. */
  function After(ins: seq<Timeval>): Clock {
    if ins == [] then Clock(ZERO, ZERO)
    else Adjusted(After(ins[..|ins| - 1]), ins[|ins| - 1]).0
  }

  /** What the n-th call of a run gives out. */
  function Output(ins: seq<Timeval>, n: nat): Timeval
    requires n < |ins|
  {
    Adjusted(After(ins[..n]), ins[n]).1
  }

  function Forward(from: int, to: int): nat {
    if to > from then to - from else 0
  }

  /** The sum of the forward steps of a run that starts at 0. */
  function Advance(ins: seq<Timeval>): nat {
    if ins == [] then 0
    else
      var n := |ins| - 1;
      Advance(ins[..n]) + Forward(if n == 0 then 0 else Micros(ins[n - 1]), Micros(ins[n]))
  }

  /** The last reading of a run. */
  function Reading(ins: seq<Timeval>): int {
    if ins == [] then 0 else Micros(ins[|ins| - 1])
  }

  /** The clock holds the sum of the forward steps and how far that is ahead of the reading. */
  lemma {:induction false} ClockState(ins: seq<Timeval>)
    requires forall i :: 0 <= i < |ins| ==> Normal(ins[i])
    ensures var c := After(ins);
            && Normal(c.last) && Normal(c.adjust)
            && Micros(c.last) == Advance(ins) && Micros(c.adjust) == Advance(ins) - Reading(ins)
  {
    if ins != [] {
      var n := |ins| - 1;
      ClockState(ins[..n]);
      var c := After(ins[..n]);
      assert n > 0 ==> ins[..n][n - 1] == ins[n - 1];
      MacrosAreArithmetic(ins[n], c.adjust);
      var t := Add(ins[n], c.adjust);
      MacrosAreArithmetic(t, c.last);
      MacrosAreArithmetic(c.last, t);
      MacrosAreArithmetic(Sub(c.last, t), c.adjust);
    }
  }

  /** The closed form: the n-th output is the sum of the forward steps up to the n-th reading. */
  lemma OutputIsAdvance(ins: seq<Timeval>, n: nat)
    requires n < |ins| && forall i :: 0 <= i < |ins| ==> Normal(ins[i])
    ensures Normal(Output(ins, n)) && Micros(Output(ins, n)) == Advance(ins[..n + 1])
  {
    var run := ins[..n + 1];
    assert run[..n] == ins[..n] && run[n] == ins[n];
    assert After(run).last == Output(ins, n);
    ClockState(run);
  }

  /**
   Outputs never go backwards, they move exactly as far as the readings whenever those move
   forward, and they stand still otherwise.
   */
  lemma OutputsMonotone(ins: seq<Timeval>, n: nat)
    requires n + 1 < |ins| && forall i :: 0 <= i < |ins| ==> Normal(ins[i])
    ensures !Earlier(Output(ins, n + 1), Output(ins, n))
    ensures Micros(Output(ins, n + 1)) - Micros(Output(ins, n)) == Forward(Micros(ins[n]), Micros(ins[n + 1]))
  {
    OutputIsAdvance(ins, n);
    OutputIsAdvance(ins, n + 1);
    var run := ins[..n + 2];
    assert run[..n + 1] == ins[..n + 1] && run[n] == ins[n] && run[n + 1] == ins[n + 1];
    MacrosAreArithmetic(Output(ins, n + 1), Output(ins, n));
  }
}
