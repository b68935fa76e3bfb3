/**
 * The admission gate of CrptApi: a request counter checked and incremented as one
 * atomic step, and a timer task that sets it back to zero once per window.
 *
 * The first half states the gate on traces of atomic events (the specification);
 * the class RateGate is the mutable object the Java code keeps, proved against it.
 */
module Throttling {
  import opened JavaInt

  /** One atomic step on the shared counter: an admission attempt or a timer reset. */
  datatype Event = Admit | Reset

  /** How many admissions a window allows: the limit itself, or none when it is not positive. */
  function Capacity(limit: int32): nat {
    if limit < 0 then 0 else limit as nat
  }

  /** A counter value the gate can be in. */
  predicate InRange(count: int32, limit: int32) {
    0 <= count as int <= Capacity(limit)
  }

  /** The new counter value after one event, and whether that event admitted a request. */
  function Step(count: int32, limit: int32, e: Event): (r: (int32, bool))
    ensures r.1 <==> e == Admit && count < limit
    ensures r.1 ==> r.0 as int == count as int + 1
    ensures e == Admit && !r.1 ==> r.0 == count
    ensures e == Reset ==> r.0 == 0
  {
    match e
    case Reset => (0, false)
    case Admit => if count < limit then (count + 1, true) else (count, false)
  }

  function Init<T>(s: seq<T>): seq<T>
    requires s != []
  {
    s[..|s| - 1]
  }

  function Last<T>(s: seq<T>): T
    requires s != []
  {
    s[|s| - 1]
  }

  /** The counter after running a trace from `start`. */
  function CountAfter(start: int32, limit: int32, trace: seq<Event>): int32
    decreases |trace|
  {
    if trace == [] then start
    else Step(CountAfter(start, limit, Init(trace)), limit, Last(trace)).0
  }

  /** For each event of the trace, whether it admitted a request. */
  function Outcomes(start: int32, limit: int32, trace: seq<Event>): (r: seq<bool>)
    decreases |trace|
    ensures |r| == |trace|
  {
    if trace == [] then []
    else Outcomes(start, limit, Init(trace)) + [Step(CountAfter(start, limit, Init(trace)), limit, Last(trace)).1]
  }

  /** The number of admissions recorded in a sequence of outcomes. */
  function Successes(bs: seq<bool>): nat
    decreases |bs|
  {
    if bs == [] then 0 else Successes(Init(bs)) + (if Last(bs) then 1 else 0)
  }

  /** `n` admission attempts in a row. */
  function Admits(n: nat): (r: seq<Event>)
    ensures |r| == n && forall k :: 0 <= k < n ==> r[k] == Admit
  {
    seq(n, _ => Admit)
  }

  lemma {:induction false} SuccessesAppend(a: seq<bool>, b: seq<bool>)
    ensures Successes(a + b) == Successes(a) + Successes(b)
    decreases |b|
  {
    if b != [] {
      assert Init(a + b) == a + Init(b);
      SuccessesAppend(a, Init(b));
    } else {
      assert a + b == a;
    }
  }

  /** A sequence of outcomes has no admission exactly when it records none. */
  lemma {:induction false} NoSuccesses(bs: seq<bool>)
    ensures Successes(bs) == 0 <==> true !in bs
    decreases |bs|
  {
    if bs != [] {
      NoSuccesses(Init(bs));
      assert bs == Init(bs) + [Last(bs)];
    }
  }

  /** Running two traces one after the other is running their concatenation. */
  lemma {:induction false} RunAppend(start: int32, limit: int32, a: seq<Event>, b: seq<Event>)
    ensures CountAfter(start, limit, a + b) == CountAfter(CountAfter(start, limit, a), limit, b)
    ensures Outcomes(start, limit, a + b) == Outcomes(start, limit, a) + Outcomes(CountAfter(start, limit, a), limit, b)
    decreases |b|
  {
    if b == [] {
      assert a + b == a;
    } else {
      assert Init(a + b) == a + Init(b);
      assert Last(a + b) == Last(b);
      RunAppend(start, limit, a, Init(b));
    }
  }

  /** One more event at the end of a trace. */
  lemma RunSnoc(start: int32, limit: int32, trace: seq<Event>, e: Event)
    ensures CountAfter(start, limit, trace + [e]) == Step(CountAfter(start, limit, trace), limit, e).0
    ensures Outcomes(start, limit, trace + [e]) == Outcomes(start, limit, trace) + [Step(CountAfter(start, limit, trace), limit, e).1]
  {
    assert Init(trace + [e]) == trace;
  }

  /** A run that extends another and ends with an admission has admitted more than the shorter one. */
  lemma LaterAdmissionCounts(start: int32, limit: int32, shorter: seq<Event>, longer: seq<Event>)
    requires |shorter| < |longer| && shorter == longer[..|shorter|]
    requires Last(Outcomes(start, limit, longer))
    ensures Successes(Outcomes(start, limit, shorter)) < Successes(Outcomes(start, limit, longer))
  {
    var rest := longer[|shorter|..];
    assert longer == shorter + rest;
    RunAppend(start, limit, shorter, rest);
    var tail := Outcomes(CountAfter(start, limit, shorter), limit, rest);
    SuccessesAppend(Outcomes(start, limit, shorter), tail);
    assert Last(tail) == Last(Outcomes(start, limit, longer));
    NoSuccesses(tail);
  }

  /** Both events keep the counter between 0 and the capacity. */
  lemma {:induction false} CountStaysInRange(start: int32, limit: int32, trace: seq<Event>)
    requires InRange(start, limit)
    ensures InRange(CountAfter(start, limit, trace), limit)
    decreases |trace|
  {
    if trace != [] {
      CountStaysInRange(start, limit, Init(trace));
    }
  }

  /**
   * Without a reset, every admission raises the counter by one, so a run of attempts
   * admits at most as many requests as the counter has room left for.
   */
  lemma {:induction false} AdmissionsRaiseCount(start: int32, limit: int32, trace: seq<Event>)
    requires InRange(start, limit)
    requires forall k :: 0 <= k < |trace| ==> trace[k] == Admit
    ensures CountAfter(start, limit, trace) as int == start as int + Successes(Outcomes(start, limit, trace))
    ensures Successes(Outcomes(start, limit, trace)) <= Capacity(limit) - start as int
    decreases |trace|
  {
    if trace != [] {
      AdmissionsRaiseCount(start, limit, Init(trace));
      CountStaysInRange(start, limit, Init(trace));
      CountStaysInRange(start, limit, trace);
    }
  }

  /**
   * The window bound: in any stretch of a run from a fresh gate that contains no reset,
   * at most `limit` requests are admitted (none at all when the limit is not positive).
   */
  lemma WindowBound(limit: int32, trace: seq<Event>, i: nat, j: nat)
    requires i <= j <= |trace|
    requires forall k :: i <= k < j ==> trace[k] == Admit
    ensures Successes(Outcomes(0, limit, trace)[i..j]) <= Capacity(limit)
  {
    var before, window, after := trace[..i], trace[i..j], trace[j..];
    assert trace == (before + window) + after;
    assert trace[..j] == before + window;
    RunAppend(0, limit, before + window, after);
    RunAppend(0, limit, before, window);
    var start := CountAfter(0, limit, before);
    assert Outcomes(0, limit, trace)[i..j] == Outcomes(start, limit, window);
    CountStaysInRange(0, limit, before);
    AdmissionsRaiseCount(start, limit, window);
  }

  /** Between two consecutive resets at most `limit` requests are admitted. */
  lemma BetweenResets(limit: int32, trace: seq<Event>, i: nat, j: nat)
    requires i < j < |trace|
    requires trace[i] == Reset && trace[j] == Reset
    requires forall k :: i < k < j ==> trace[k] == Admit
    ensures Successes(Outcomes(0, limit, trace)[i + 1..j]) <= Capacity(limit)
  {
    WindowBound(limit, trace, i + 1, j);
  }

  /** With a limit that is not positive, no event of any run ever admits a request. */
  lemma {:induction false} NonPositiveLimitNeverAdmits(limit: int32, trace: seq<Event>)
    requires limit <= 0
    ensures forall k :: 0 <= k < |trace| ==> !Outcomes(0, limit, trace)[k]
    decreases |trace|
  {
    if trace != [] {
      NonPositiveLimitNeverAdmits(limit, Init(trace));
      CountStaysInRange(0, limit, Init(trace));
    }
  }

  /** From counter `start`, of `n` attempts in a row exactly the first `Capacity(limit) - start` succeed. */
  lemma {:induction false} AttemptsFrom(start: int32, limit: int32, n: nat)
    requires InRange(start, limit)
    ensures Outcomes(start, limit, Admits(n)) == seq(n, k => k < Capacity(limit) - start as int)
    ensures CountAfter(start, limit, Admits(n)) as int == start as int + Min(n, Capacity(limit) - start as int)
    decreases n
  {
    if n > 0 {
      assert Init(Admits(n)) == Admits(n - 1);
      AttemptsFrom(start, limit, n - 1);
      assert seq(n, k => k < Capacity(limit) - start as int)
          == seq(n - 1, k => k < Capacity(limit) - start as int) + [n - 1 < Capacity(limit) - start as int];
    }
  }

  function Min(a: int, b: int): int {
    if a < b then a else b
  }

  /**
   * After a reset, whatever the counter was, the next `limit` attempts all succeed
   * and every further attempt before the next reset fails.
   */
  lemma FreshWindow(start: int32, limit: int32, n: nat)
    ensures Outcomes(start, limit, [Reset] + Admits(n)) == [false] + seq(n, k => k < Capacity(limit))
  {
    RunAppend(start, limit, [Reset], Admits(n));
    assert CountAfter(start, limit, [Reset]) == 0 by {
      assert Init([Reset]) == [];
    }
    assert Outcomes(start, limit, [Reset]) == [false] by {
      assert Init([Reset]) == [];
    }
    AttemptsFrom(0, limit, n);
  }

  /**
   * The timer's reset is not inside the synchronized block, so it can fall between an
   * attempt's check (which saw room at `count`) and its increment. That interleaving
   * leaves the counter at 1, exactly as if the reset had come first and the attempt after.
   */
  lemma ResetBetweenCheckAndIncrement(count: int32, limit: int32)
    requires InRange(count, limit)
    requires count < limit
    ensures Step(count, limit, Admit).1
    ensures Step(count, limit, Reset).0 + 1 == CountAfter(count, limit, [Reset, Admit])
    ensures Outcomes(count, limit, [Reset, Admit]) == [false, true]
  {
    assert Init([Reset, Admit]) == [Reset];
    assert Init([Reset]) == [];
  }

  /**
   * The gate object: `requestCounter` and `requestLimit` of CrptApi. The ghost history
   * records every atomic step taken on it, in order.
   */
  class RateGate {
    var count: int32
    const limit: int32
    ghost var history: seq<Event>

    ghost predicate Valid()
      reads this
    {
      count == CountAfter(0, limit, history) && InRange(count, limit)
    }

    /** The counter starts at zero; the limit is fixed for the gate's life. */
    constructor (limit: int32)
      ensures Valid()
      ensures this.limit == limit && count == 0 && history == []
    {
      this.limit := limit;
      count := 0;
      history := [];
    }

    /** The synchronized check-and-increment: admit when the counter is below the limit. */
    method TryAdmit() returns (admitted: bool)
      requires Valid()
      modifies this
      ensures Valid()
      ensures admitted <==> old(count) < limit
      ensures count == if admitted then old(count) + 1 else old(count)
      ensures history == old(history) + [Admit]
      ensures Outcomes(0, limit, history) == Outcomes(0, limit, old(history)) + [admitted]
    {
      admitted := count < limit;
      if admitted {
        count := count + 1;
      }
      RunSnoc(0, limit, history, Admit);
      history := history + [Admit];
    }

    /** The timer task: the counter goes back to zero whatever it was. */
    method Reset()
      requires Valid()
      modifies this
      ensures Valid()
      ensures count == 0
      ensures history == old(history) + [Event.Reset]
      ensures Outcomes(0, limit, history) == Outcomes(0, limit, old(history)) + [false]
    {
      count := 0;
      RunSnoc(0, limit, history, Event.Reset);
      history := history + [Event.Reset];
    }
  }
}
