/** Sequences of requests against the tables. Only the three writing handlers
    (create, register, cancel) can change the tables; list and stats are
    functions of the tables and leave them as they are. */
module History {
  import opened JsValues
  import opened Store

  datatype Request =
    | CreateRequest(input: EventInput, now: int)
    | RegisterRequest(id: int, name: string, email: string)
    | CancelRequest(id: int)

  function Step(t: Tables, req: Request): Tables {
    match req
    case CreateRequest(input, now) => CreateEvent(t, input, now).0
    case RegisterRequest(id, name, email) => Register(t, id, name, email).0
    case CancelRequest(id) => Cancel(t, id)
  }

  /** The tables after serving the requests one after the other. */
  function Run(t: Tables, reqs: seq<Request>): Tables
    decreases |reqs|
  {
    if reqs == [] then t else Run(Step(t, reqs[0]), reqs[1..])
  }

  /** How the tables may evolve: events are only appended, the only change
      to an existing event is its flag going from false to true, and
      registrations are only appended. */
  predicate Evolves(t: Tables, t': Tables) {
    && |t.events| <= |t'.events|
    && (forall k :: 0 <= k < |t.events| ==>
          t'.events[k] == t.events[k].(isCancelled := t'.events[k].isCancelled))
    && (forall k :: 0 <= k < |t.events| ==> t.events[k].isCancelled ==> t'.events[k].isCancelled)
    && t.registrations <= t'.registrations
  }

  lemma StepEvolves(t: Tables, req: Request)
    ensures Evolves(t, Step(t, req))
  {
  }

  lemma EvolvesTransitive(t1: Tables, t2: Tables, t3: Tables)
    requires Evolves(t1, t2) && Evolves(t2, t3)
    ensures Evolves(t1, t3)
  {
    assert t1.registrations <= t3.registrations by {
      assert t3.registrations[..|t1.registrations|] == t2.registrations[..|t1.registrations|];
    }
  }

  /** Every request keeps the invariant of the tables: ids fresh, every
      registration refers to an event, (event, email) pairs unique, no event
      over capacity. */
  lemma StepPreservesValid(t: Tables, req: Request)
    requires Valid(t)
    ensures Valid(Step(t, req))
  {
    match req
    case CreateRequest(input, now) => CreateEventPreservesValid(t, input, now);
    case RegisterRequest(id, name, email) => RegisterPreservesValid(t, id, name, email);
    case CancelRequest(id) => CancelPreservesValid(t, id);
  }

  lemma {:induction false} RunPreservesValid(t: Tables, reqs: seq<Request>)
    requires Valid(t)
    ensures Valid(Run(t, reqs))
    decreases |reqs|
  {
    if reqs != [] {
      StepPreservesValid(t, reqs[0]);
      RunPreservesValid(Step(t, reqs[0]), reqs[1..]);
    }
  }

  lemma {:induction false} RunEvolves(t: Tables, reqs: seq<Request>)
    ensures Evolves(t, Run(t, reqs))
    decreases |reqs|
  {
    if reqs == [] {
      assert Run(t, reqs) == t;
    } else {
      StepEvolves(t, reqs[0]);
      RunEvolves(Step(t, reqs[0]), reqs[1..]);
      EvolvesTransitive(t, Step(t, reqs[0]), Run(t, reqs));
    }
  }

  /** From the freshly created tables, every reachable state keeps the
      invariant; in particular no event ever holds more registrations than
      its capacity and no (event, email) pair is stored twice. */
  lemma ReachableIsValid(reqs: seq<Request>)
    ensures Valid(Run(Empty, reqs))
    ensures forall k :: 0 <= k < |Run(Empty, reqs).events| ==>
      CountFor(Run(Empty, reqs).registrations, Run(Empty, reqs).events[k].id) <= Run(Empty, reqs).events[k].capacity
        || CountFor(Run(Empty, reqs).registrations, Run(Empty, reqs).events[k].id) == 0
    ensures UniquePairs(Run(Empty, reqs).registrations)
  {
    EmptyIsValid();
    RunPreservesValid(Empty, reqs);
  }

  /** Cancellation is one-way: a cancelled event stays cancelled whatever
      requests follow, and every later registration for it is refused
      with `Cancelled`, though it may have room. */
  lemma RegisterAfterCancel(t: Tables, reqs: seq<Request>, k: nat, name: string, email: string)
    requires Valid(t)
    requires k < |t.events| && t.events[k].isCancelled
    ensures var t' := Run(t, reqs);
      k < |t'.events| && t'.events[k].id == t.events[k].id && t'.events[k].isCancelled
    ensures Register(Run(t, reqs), t.events[k].id, name, email).1 == Err(Cancelled)
  {
    var t' := Run(t, reqs);
    RunEvolves(t, reqs);
    RunPreservesValid(t, reqs);
    FindEventUnique(t', k);
  }

  /** A cancel request for an existing event makes every later registration
      for it fail with `Cancelled`. */
  lemma CancelThenRegister(t: Tables, id: int, reqs: seq<Request>, name: string, email: string)
    requires Valid(t)
    requires exists k :: 0 <= k < |t.events| && t.events[k].id == id
    ensures Register(Run(Cancel(t, id), reqs), id, name, email).1 == Err(Cancelled)
  {
    var k :| 0 <= k < |t.events| && t.events[k].id == id;
    CancelPreservesValid(t, id);
    RegisterAfterCancel(Cancel(t, id), reqs, k, name, email);
  }

  /** Once an email is registered for an event, no later registration of the
      same email for that event succeeds, whatever requests come between. */
  lemma NoSecondRegistration(t: Tables, reqs: seq<Request>, id: int, name: string, email: string)
    requires Valid(t)
    requires Registered(t.registrations, id, email)
    ensures Registered(Run(t, reqs).registrations, id, email)
    ensures Register(Run(t, reqs), id, name, email).1 != Ok(())
  {
    var t' := Run(t, reqs);
    RunEvolves(t, reqs);
    var i :| 0 <= i < |t.registrations| && t.registrations[i].eventId == id && t.registrations[i].email == email;
    assert t'.registrations[i] == t.registrations[i];
  }

  /** Registering the same email twice in a row: the second attempt is
      refused, as `Full` when the first one took the last seat and as
      `Duplicate` otherwise. */
  lemma SecondRegistrationRefused(t: Tables, id: int, name1: string, name2: string, email: string)
    requires Valid(t)
    requires Register(t, id, name1, email).1.Ok?
    ensures Register(Register(t, id, name1, email).0, id, name2, email).1 in {Err(Full), Err(Duplicate)}
  {
    var t' := Register(t, id, name1, email).0;
    var k := FindEvent(t.events, id).value;
    RegisterSuccess(t, id, name1, email);
    RegisterPreservesValid(t, id, name1, email);
    assert t'.registrations[|t.registrations|].eventId == id;
    assert Registered(t'.registrations, id, email);
    assert FindEvent(t'.events, id) == Some(k);
    assert !t'.events[k].isCancelled;
  }
}
