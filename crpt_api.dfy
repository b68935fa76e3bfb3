/**
 * createDocumentToSendInSalesProductMadeInRussia: serialize the document, build the
 * signed request, spin on the gate until it admits, then send and wait for the response.
 *
 * The serializer (Jackson's ObjectMapper) and the transport (HttpClient.send) are
 * parameters. The spin loop runs against a schedule of timer firings: before attempt i
 * the timer task resets the counter when timerFired[i] holds.
 */
module CrptApi {
  import opened Wrappers
  import opened JavaInt
  import opened Throttling
  import opened Requests
  import opened Documents

  /** JsonProcessingException */
  datatype JsonError = JsonError(message: string)

  /** IOException or InterruptedException thrown by HttpClient.send */
  datatype TransportError = IOError(message: string) | Interrupted

  datatype Response = Response(statusCode: int, body: string)

  datatype SubmitOutcome =
    | SerializationFailed(error: JsonError)   // rethrown as RuntimeException, before the gate is touched
    | StillWaiting                            // the gate did not admit within the schedule of timer firings
    | Sent(request: Request, response: Response)
    | SendFailed(request: Request, failure: TransportError)  // rethrown as RuntimeException after admission

  /** One turn of the spin loop: the timer may reset the counter, then the caller tries the gate. */
  function Turn(timerFired: bool): seq<Event> {
    if timerFired then [Reset, Admit] else [Admit]
  }

  /** The atomic steps one spinning caller and the timer take over a schedule of timer firings. */
  function SpinEvents(timerFired: seq<bool>): seq<Event>
    decreases |timerFired|
  {
    if timerFired == [] then [] else SpinEvents(Init(timerFired)) + Turn(Last(timerFired))
  }

  /** A turn admits exactly when, after the optional reset, the counter is below the limit. */
  lemma TurnRun(count: int32, limit: int32, timerFired: bool)
    ensures var before := if timerFired then 0 else count;
      && CountAfter(count, limit, Turn(timerFired)) == Step(before, limit, Admit).0
      && Outcomes(count, limit, Turn(timerFired)) == (if timerFired then [false] else []) + [before < limit]
      && Successes(Outcomes(count, limit, Turn(timerFired))) == (if before < limit then 1 else 0)
      && (true in Outcomes(count, limit, Turn(timerFired)) <==> before < limit)
  {
    if timerFired {
      ResetThenAdmit(count, limit);
    } else {
      AdmitAlone(count, limit);
    }
  }

  lemma AdmitAlone(count: int32, limit: int32)
    ensures CountAfter(count, limit, [Admit]) == Step(count, limit, Admit).0
    ensures Outcomes(count, limit, [Admit]) == [count < limit]
    ensures Successes([count < limit]) == if count < limit then 1 else 0
  {
    assert Init([Admit]) == [];
    assert Init([count < limit]) == [];
  }

  lemma ResetThenAdmit(count: int32, limit: int32)
    ensures CountAfter(count, limit, [Reset, Admit]) == Step(0, limit, Admit).0
    ensures Outcomes(count, limit, [Reset, Admit]) == [false, 0 < limit]
    ensures Successes([false, 0 < limit]) == if 0 < limit then 1 else 0
  {
    assert Init([Reset, Admit]) == [Reset];
    assert Init([Reset]) == [];
    assert Init([false, 0 < limit]) == [false];
    assert Init([false]) == [];
  }

  lemma {:induction false} SpinEventsAppend(timerFired: seq<bool>, i: nat)
    requires i <= |timerFired|
    ensures SpinEvents(timerFired) == SpinEvents(timerFired[..i]) + SpinEvents(timerFired[i..])
    decreases |timerFired|
  {
    if i < |timerFired| {
      var init := Init(timerFired);
      assert init[..i] == timerFired[..i];
      assert Init(timerFired[i..]) == init[i..];
      assert Last(timerFired[i..]) == Last(timerFired);
      SpinEventsAppend(init, i);
    } else {
      assert timerFired[..i] == timerFired;
      assert timerFired[i..] == [];
    }
  }

  /** What one more turn of the loop adds to the run of the turns before it. */
  lemma SpinTurn(start: int32, limit: int32, timerFired: seq<bool>, i: nat)
    requires i < |timerFired|
    ensures var done := SpinEvents(timerFired[..i]);
      && SpinEvents(timerFired[..i + 1]) == done + Turn(timerFired[i])
      && CountAfter(start, limit, done + Turn(timerFired[i]))
         == CountAfter(CountAfter(start, limit, done), limit, Turn(timerFired[i]))
      && Outcomes(start, limit, done + Turn(timerFired[i]))
         == Outcomes(start, limit, done) + Outcomes(CountAfter(start, limit, done), limit, Turn(timerFired[i]))
  {
    assert Init(timerFired[..i + 1]) == timerFired[..i];
    RunAppend(start, limit, SpinEvents(timerFired[..i]), Turn(timerFired[i]));
  }

  /**
   * The state of a spin after its first `i` turns, from counter `c0`: the steps taken are
   * the schedule's first `i` turns, `count` is the counter they leave, and the caller is
   * admitted exactly when the last turn admitted, with no admission before it.
   */
  ghost predicate SpinSoFar(c0: int32, limit: int32, timerFired: seq<bool>, i: nat,
                            events: seq<Event>, count: int32, admitted: bool)
  {
    && i <= |timerFired|
    && events == SpinEvents(timerFired[..i])
    && count == CountAfter(c0, limit, events)
    && (!admitted ==> true !in Outcomes(c0, limit, events))
    && (admitted ==>
          && Successes(Outcomes(c0, limit, events)) == 1
          && events != [] && Last(Outcomes(c0, limit, events)))
  }

  /**
   * One turn of the spin loop for a caller that has not been admitted yet: the turn admits
   * exactly when the counter, after the optional reset, is below the limit.
   */
  lemma SpinStep(c0: int32, limit: int32, timerFired: seq<bool>, i: nat, events: seq<Event>, count: int32)
    requires i < |timerFired|
    requires SpinSoFar(c0, limit, timerFired, i, events, count, false)
    ensures var before := if timerFired[i] then 0 else count;
      SpinSoFar(c0, limit, timerFired, i + 1, events + Turn(timerFired[i]),
                Step(before, limit, Admit).0, before < limit)
  {
    var turn := Turn(timerFired[i]);
    SpinTurn(c0, limit, timerFired, i);
    TurnRun(count, limit, timerFired[i]);
    NoSuccesses(Outcomes(c0, limit, events));
    SuccessesAppend(Outcomes(c0, limit, events), Outcomes(count, limit, turn));
  }

  /** Regrouping the history after a turn; the loop cites it rather than leave the solver to find it. */
  lemma AppendAssoc<T>(a: seq<T>, b: seq<T>, c: seq<T>)
    ensures (a + b) + c == a + (b + c)
  {
  }

  /**
   * What a caller's spin leaves in the gate's history, from history `h0` and counter `c0`:
   * a prefix of the scheduled steps, ending at the first admission if there is one, with
   * exactly one admission taken when `admitted` and none otherwise.
   */
  ghost predicate SpinRun(h0: seq<Event>, c0: int32, limit: int32, timerFired: seq<bool>,
                          history: seq<Event>, admitted: bool)
  {
    var schedule := SpinEvents(timerFired);
    && |h0| <= |history| <= |h0| + |schedule|
    && history[..|h0|] == h0
    && var taken := history[|h0|..];
    && taken == schedule[..|taken|]
    && (admitted <==> true in Outcomes(c0, limit, schedule))
    && (!admitted ==> taken == schedule)
    && Successes(Outcomes(c0, limit, taken)) == (if admitted then 1 else 0)
    && (admitted ==> taken != [] && Last(Outcomes(c0, limit, taken)))
  }

  /**
   * A spin leaves one history only: the steps it takes and whether it is admitted are fixed
   * by the starting state and the schedule, so it stops at the first admitting turn.
   */
  lemma SpinRunUnique(h0: seq<Event>, c0: int32, limit: int32, timerFired: seq<bool>,
                      h1: seq<Event>, a1: bool, h2: seq<Event>, a2: bool)
    requires SpinRun(h0, c0, limit, timerFired, h1, a1)
    requires SpinRun(h0, c0, limit, timerFired, h2, a2)
    ensures a1 == a2 && h1 == h2
  {
    var schedule := SpinEvents(timerFired);
    var t1, t2 := h1[|h0|..], h2[|h0|..];
    assert h1 == h0 + t1 by { assert h1[..|h0|] == h0; }
    assert h2 == h0 + t2 by { assert h2[..|h0|] == h0; }
    assert t1 == schedule[..|t1|] && t2 == schedule[..|t2|];
    if a1 {
      AdmittedPrefixesAgree(c0, limit, schedule, t1, t2);
    }
  }

  /** Two prefixes of a run that each admit exactly once, at their last step, are the same prefix. */
  lemma AdmittedPrefixesAgree(c0: int32, limit: int32, schedule: seq<Event>, t1: seq<Event>, t2: seq<Event>)
    requires |t1| <= |schedule| && t1 == schedule[..|t1|]
    requires |t2| <= |schedule| && t2 == schedule[..|t2|]
    requires t1 != [] && Last(Outcomes(c0, limit, t1)) && Successes(Outcomes(c0, limit, t1)) == 1
    requires t2 != [] && Last(Outcomes(c0, limit, t2)) && Successes(Outcomes(c0, limit, t2)) == 1
    ensures t1 == t2
  {
    if |t1| < |t2| {
      assert t1 == t2[..|t1|];
      LaterAdmissionCounts(c0, limit, t1, t2);
    } else if |t2| < |t1| {
      assert t2 == t1[..|t2|];
      LaterAdmissionCounts(c0, limit, t2, t1);
    }
  }

  /** Where the loop stops: at the first admission, or when the schedule runs out. */
  lemma SpinFinish(h0: seq<Event>, c0: int32, limit: int32, timerFired: seq<bool>, i: nat,
                   events: seq<Event>, count: int32, admitted: bool)
    requires SpinSoFar(c0, limit, timerFired, i, events, count, admitted)
    requires admitted || i == |timerFired|
    ensures SpinRun(h0, c0, limit, timerFired, h0 + events, admitted)
  {
    SpinEventsAppend(timerFired, i);
    RunAppend(c0, limit, events, SpinEvents(timerFired[i..]));
    assert (h0 + events)[..|h0|] == h0;
    assert (h0 + events)[|h0|..] == events;
    if admitted {
      assert Outcomes(c0, limit, events)[|events| - 1];
    } else {
      assert timerFired[..i] == timerFired;
      NoSuccesses(Outcomes(c0, limit, events));
    }
  }

  /** The `while (true)` loop of checkLimitationAndSendRequest: try the gate until it admits. */
  method AwaitAdmission(gate: RateGate, timerFired: seq<bool>) returns (admitted: bool)
    requires gate.Valid()
    modifies gate
    ensures gate.Valid()
    ensures SpinRun(old(gate.history), old(gate.count), gate.limit, timerFired, gate.history, admitted)
  {
    ghost var h0, c0 := gate.history, gate.count;
    ghost var events: seq<Event> := [];
    var i := 0;
    admitted := false;
    while i < |timerFired| && !admitted
      invariant gate.Valid()
      invariant gate.history == h0 + events
      invariant SpinSoFar(c0, gate.limit, timerFired, i, events, gate.count, admitted)
      decreases |timerFired| - i
    {
      ghost var turn := Turn(timerFired[i]);
      SpinStep(c0, gate.limit, timerFired, i, events, gate.count);
      if timerFired[i] {
        gate.Reset();
        admitted := gate.TryAdmit();
        AppendAssoc(h0 + events, [Reset], [Admit]);
      } else {
        admitted := gate.TryAdmit();
      }
      AppendAssoc(h0, events, turn);
      events := events + turn;
      i := i + 1;
    }

    SpinFinish(h0, c0, gate.limit, timerFired, i, events, gate.count, admitted);
  }

  /**
   * createDocumentToSendInSalesProductMadeInRussia. Serialization happens first, and a
   * failure leaves the gate untouched. Otherwise the signed request is built and the caller
   * spins on the gate; once admitted, the request goes to the transport, whose failure does
   * not give the admission back.
   */
  method Submit(gate: RateGate, document: Document, signToken: string,
                serialize: Document -> Result<string, JsonError>,
                send: Request -> Result<Response, TransportError>,
                timerFired: seq<bool>)
    returns (outcome: SubmitOutcome)
    requires gate.Valid()
    modifies gate
    ensures gate.Valid()
    ensures serialize(document).Failure? ==>
      && outcome == SerializationFailed(serialize(document).error)
      && gate.count == old(gate.count) && gate.history == old(gate.history)
    ensures serialize(document).Success? ==>
      var request := MakeSignedRequest(serialize(document).value, signToken);
      && SpinRun(old(gate.history), old(gate.count), gate.limit, timerFired, gate.history, !outcome.StillWaiting?)
      && !outcome.SerializationFailed?
      && (outcome.Sent? ==> send(request).Success? && outcome == Sent(request, send(request).value))
      && (outcome.SendFailed? ==> send(request).Failure? && outcome == SendFailed(request, send(request).error))
  {
    var serialized := serialize(document);
    if serialized.Failure? {
      return SerializationFailed(serialized.error);
    }
    var request := MakeSignedRequest(serialized.value, signToken);
    var admitted := AwaitAdmission(gate, timerFired);
    if !admitted {
      return StillWaiting;
    }
    var response := send(request);
    match response
    case Success(r) => outcome := Sent(request, r);
    case Failure(e) => outcome := SendFailed(request, e);
  }
}
