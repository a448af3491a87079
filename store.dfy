/** The two tables of the event registry and the table operations each
    request handler performs, as pure functions from the tables before the
    request to the tables after it and the handler's outcome. */
module Store {
  import opened JsValues

  /** A row of `events`; `isCancelled` is the `is_cancelled` column. */
  datatype Event = Event(id: int, name: string, date: int, capacity: int, isCancelled: bool)

  /** A row of `registrations`. */
  datatype Registration = Registration(id: int, eventId: int, name: string, email: string)

  /** Both tables, with the next value each AUTOINCREMENT key will take. */
  datatype Tables = Tables(
    events: seq<Event>,
    registrations: seq<Registration>,
    nextEventId: int,
    nextRegistrationId: int)

  /** The handlers' error replies: 400 "Missing fields", 400 "Date must be in
      the future", 404 "Event not found", 400 "Event cancelled", 400 "Event
      full" and 400 "Duplicate email for this event". */
  datatype Error = Missing | PastDate | NotFound | Cancelled | Full | Duplicate

  datatype Result<+T> = Ok(value: T) | Err(error: Error)

  /** The body of a create request. `date` is the date already parsed to a
      number of milliseconds; `None` stands for a field whose raw value is
      falsy (absent, null, "" or 0). */
  datatype EventInput = EventInput(name: Option<string>, date: Option<int>, capacity: Option<int>)

  /** The reply to a successful create: the assigned id and the three inputs. */
  datatype Created = Created(id: int, name: string, date: int, capacity: int)

  /** Freshly created tables: both empty, AUTOINCREMENT keys starting at 1. */
  const Empty := Tables([], [], 1, 1)

  // ---------------------------------------------------------------------
  // Queries on the tables

  /** `SELECT * FROM events WHERE id = ?`: the position of the first row with that id. */
  function FindEvent(events: seq<Event>, id: int): (r: Option<nat>)
    ensures r.Some? ==> r.value < |events| && events[r.value].id == id
    ensures r.Some? ==> forall i :: 0 <= i < r.value ==> events[i].id != id
    ensures r.None? <==> forall i :: 0 <= i < |events| ==> events[i].id != id
  {
    if events == [] then None
    else if events[0].id == id then Some(0)
    else
      match FindEvent(events[1..], id)
      case None => None
      case Some(k) => Some(k + 1)
  }

  /** The positions of the registrations for an event. */
  ghost function RegistrationsOf(regs: seq<Registration>, id: int): set<nat> {
    set i: nat | i < |regs| && regs[i].eventId == id
  }

  /** `SELECT COUNT(*) FROM registrations WHERE event_id = ?`: the capacity
      check of register and the whole of GET /api/events/:id/stats. */
  function CountFor(regs: seq<Registration>, id: int): (n: nat)
    ensures n == |RegistrationsOf(regs, id)|
  {
    if regs == [] then 0
    else
      var init := regs[..|regs| - 1];
      assert RegistrationsOf(regs, id) ==
        RegistrationsOf(init, id) + (if regs[|regs| - 1].eventId == id then {|regs| - 1} else {});
      CountFor(init, id) + if regs[|regs| - 1].eventId == id then 1 else 0
  }

  /** Whether the pair (event id, email) is already in `registrations`, which
      the UNIQUE(event_id, email) constraint refuses to store twice. */
  predicate Registered(regs: seq<Registration>, id: int, email: string) {
    exists i :: 0 <= i < |regs| && regs[i].eventId == id && regs[i].email == email
  }

  // ---------------------------------------------------------------------
  // The invariant the tables keep

  /** Event ids are assigned in increasing order, all below the next id.
      Increasing order also makes them pairwise distinct. */
  predicate EventIdsFresh(t: Tables) {
    && 1 <= t.nextEventId
    && (forall i :: 0 <= i < |t.events| ==> 1 <= t.events[i].id < t.nextEventId)
    && (forall i, j :: 0 <= i < j < |t.events| ==> t.events[i].id < t.events[j].id)
  }

  predicate RegistrationIdsFresh(t: Tables) {
    && 1 <= t.nextRegistrationId
    && (forall i :: 0 <= i < |t.registrations| ==> 1 <= t.registrations[i].id < t.nextRegistrationId)
    && (forall i, j :: 0 <= i < j < |t.registrations| ==> t.registrations[i].id < t.registrations[j].id)
  }

  /** Every registration refers to an event that exists. */
  predicate ReferencesExist(t: Tables) {
    forall i :: 0 <= i < |t.registrations| ==> FindEvent(t.events, t.registrations[i].eventId).Some?
  }

  /** UNIQUE(event_id, email): the pairs are pairwise distinct. */
  predicate UniquePairs(regs: seq<Registration>) {
    forall i, j :: 0 <= i < j < |regs| ==>
      regs[i].eventId != regs[j].eventId || regs[i].email != regs[j].email
  }

  /** No event has more registrations than its capacity (none at all when
      the capacity is negative). */
  predicate WithinCapacity(t: Tables) {
    forall i :: 0 <= i < |t.events| ==>
      CountFor(t.registrations, t.events[i].id) <= if t.events[i].capacity < 0 then 0 else t.events[i].capacity
  }

  /** Every stored event passed the create handler's presence check. */
  predicate EventsWellFormed(t: Tables) {
    forall i :: 0 <= i < |t.events| ==> t.events[i].name != "" && t.events[i].capacity != 0
  }

  predicate Valid(t: Tables) {
    && EventIdsFresh(t)
    && RegistrationIdsFresh(t)
    && ReferencesExist(t)
    && UniquePairs(t.registrations)
    && WithinCapacity(t)
    && EventsWellFormed(t)
  }

  // ---------------------------------------------------------------------
  // The handlers' table operations

  /** POST /api/events. */
  function CreateEvent(t: Tables, input: EventInput, now: int): (Tables, Result<Created>) {
    if !TruthyText(input.name) || input.date.None? || !TruthyNumber(input.capacity) then
      (t, Err(Missing))
    else if input.date.value <= now then
      (t, Err(PastDate))
    else
      var e := Event(t.nextEventId, input.name.value, input.date.value, input.capacity.value, false);
      (t.(events := t.events + [e], nextEventId := t.nextEventId + 1),
       Ok(Created(e.id, e.name, e.date, e.capacity)))
  }

  /** POST /api/events/:id/register. */
  function Register(t: Tables, id: int, name: string, email: string): (Tables, Result<()>) {
    match FindEvent(t.events, id)
    case None => (t, Err(NotFound))
    case Some(k) =>
      if t.events[k].isCancelled then (t, Err(Cancelled))
      else if CountFor(t.registrations, id) >= t.events[k].capacity then (t, Err(Full))
      else if Registered(t.registrations, id, email) then (t, Err(Duplicate))
      else
        var r := Registration(t.nextRegistrationId, id, name, email);
        (t.(registrations := t.registrations + [r], nextRegistrationId := t.nextRegistrationId + 1), Ok(()))
  }

  /** `UPDATE events SET is_cancelled = 1 WHERE id = ?` on a sequence of rows. */
  function MarkCancelled(events: seq<Event>, id: int): (r: seq<Event>)
    ensures |r| == |events|
    ensures forall i :: 0 <= i < |events| ==>
      r[i] == if events[i].id == id then events[i].(isCancelled := true) else events[i]
  {
    if events == [] then []
    else
      [if events[0].id == id then events[0].(isCancelled := true) else events[0]]
      + MarkCancelled(events[1..], id)
  }

  /** POST /api/events/:id/cancel: always replies success. */
  function Cancel(t: Tables, id: int): Tables {
    t.(events := MarkCancelled(t.events, id))
  }

  // ---------------------------------------------------------------------
  // Properties of each handler

  lemma EmptyIsValid()
    ensures Valid(Empty)
  {
  }

  /** Create fails with `Missing` exactly when a field is falsy, and with
      `PastDate` exactly when the fields are present and the date is not
      after `now`; a failed create leaves the tables as they were. */
  lemma CreateEventErrors(t: Tables, input: EventInput, now: int)
    ensures CreateEvent(t, input, now).1 == Err(Missing) <==>
      !TruthyText(input.name) || input.date.None? || !TruthyNumber(input.capacity)
    ensures CreateEvent(t, input, now).1 == Err(PastDate) <==>
      TruthyText(input.name) && input.date.Some? && TruthyNumber(input.capacity) && input.date.value <= now
    ensures CreateEvent(t, input, now).1.Err? ==> CreateEvent(t, input, now).0 == t
  {
  }

  /** A successful create appends one uncancelled event with a fresh id and
      the given fields, returns that id with the inputs, changes no existing
      row, and the new event has no registrations. */
  lemma CreateEventSuccess(t: Tables, input: EventInput, now: int)
    requires Valid(t)
    requires CreateEvent(t, input, now).1.Ok?
    ensures var (t', r) := CreateEvent(t, input, now);
      && r.value == Created(r.value.id, input.name.value, input.date.value, input.capacity.value)
      && t'.events == t.events + [Event(r.value.id, input.name.value, input.date.value, input.capacity.value, false)]
      && t'.registrations == t.registrations
      && (forall i :: 0 <= i < |t.events| ==> t.events[i].id != r.value.id)
      && CountFor(t'.registrations, r.value.id) == 0
      && FindEvent(t'.events, r.value.id) == Some(|t.events|)
  {
    var (t', r) := CreateEvent(t, input, now);
    NoRegistrationsForUnknown(t, r.value.id);
    FindEventAt(t'.events, |t.events|, r.value.id);
  }

  /** Registrations only refer to existing events, so an id no event has
      has no registrations. */
  lemma NoRegistrationsForUnknown(t: Tables, id: int)
    requires ReferencesExist(t)
    requires forall i :: 0 <= i < |t.events| ==> t.events[i].id != id
    ensures CountFor(t.registrations, id) == 0
  {
    forall i | 0 <= i < |t.registrations| ensures t.registrations[i].eventId != id {
      assert FindEvent(t.events, t.registrations[i].eventId).Some?;
    }
    assert RegistrationsOf(t.registrations, id) == {};
  }

  lemma CreateEventPreservesValid(t: Tables, input: EventInput, now: int)
    requires Valid(t)
    ensures Valid(CreateEvent(t, input, now).0)
  {
    if CreateEvent(t, input, now).1.Ok? {
      var e := Event(t.nextEventId, input.name.value, input.date.value, input.capacity.value, false);
      assert CreateEvent(t, input, now).0 == AppendEvent(t, e);
      AppendEventPreservesValid(t, e);
    }
  }

  /** The tables after the create handler's `INSERT INTO events`. */
  function AppendEvent(t: Tables, e: Event): Tables {
    t.(events := t.events + [e], nextEventId := t.nextEventId + 1)
  }

  /** Inserting a well-formed event under the next id keeps the invariant. */
  lemma AppendEventPreservesValid(t: Tables, e: Event)
    requires Valid(t)
    requires e.id == t.nextEventId && e.name != "" && e.capacity != 0
    ensures Valid(AppendEvent(t, e))
  {
    var t' := AppendEvent(t, e);
    AppendEventKeepsIdsFresh(t, e);
    assert ReferencesExist(t') by {
      forall i | 0 <= i < |t.registrations| ensures FindEvent(t'.events, t.registrations[i].eventId).Some? {
        FindEventExtend(t.events, [e], t.registrations[i].eventId);
      }
    }
    AppendEventKeepsCapacity(t, e);
    assert EventsWellFormed(t') by {
      forall i | 0 <= i < |t'.events| ensures t'.events[i].name != "" && t'.events[i].capacity != 0 {
        if i < |t.events| { assert t'.events[i] == t.events[i]; }
      }
    }
  }

  lemma AppendEventKeepsIdsFresh(t: Tables, e: Event)
    requires EventIdsFresh(t) && e.id == t.nextEventId
    ensures EventIdsFresh(AppendEvent(t, e))
  {
    var t' := AppendEvent(t, e);
    forall i, j | 0 <= i < j < |t'.events| ensures t'.events[i].id < t'.events[j].id {
      assert t'.events[i] == t.events[i];
    }
  }

  lemma AppendEventKeepsCapacity(t: Tables, e: Event)
    requires Valid(t) && e.id == t.nextEventId
    ensures WithinCapacity(AppendEvent(t, e))
  {
    var t' := AppendEvent(t, e);
    NoRegistrationsForUnknown(t, e.id);
    forall i | 0 <= i < |t'.events|
      ensures CountFor(t'.registrations, t'.events[i].id) <= if t'.events[i].capacity < 0 then 0 else t'.events[i].capacity
    {
      if i < |t.events| { assert t'.events[i] == t.events[i]; }
    }
  }

  /** Appending rows keeps every id where it was found. */
  lemma {:induction false} FindEventExtend(events: seq<Event>, more: seq<Event>, id: int)
    requires FindEvent(events, id).Some?
    ensures FindEvent(events + more, id) == FindEvent(events, id)
  {
    var k := FindEvent(events, id).value;
    assert (events + more)[k] == events[k];
    assert forall i :: 0 <= i < k ==> (events + more)[i] == events[i];
    FindEventAt(events + more, k, id);
  }

  /** The first position holding an id is what `FindEvent` returns. */
  lemma FindEventAt(events: seq<Event>, k: nat, id: int)
    requires k < |events| && events[k].id == id
    requires forall i :: 0 <= i < k ==> events[i].id != id
    ensures FindEvent(events, id) == Some(k)
  {
  }

  /** With distinct ids, `FindEvent` finds the one row holding the id. */
  lemma FindEventUnique(t: Tables, k: nat)
    requires EventIdsFresh(t)
    requires k < |t.events|
    ensures FindEvent(t.events, t.events[k].id) == Some(k)
  {
    FindEventAt(t.events, k, t.events[k].id);
  }

  /** The registration checks run in a fixed order and stop at the first
      failure: unknown id, then cancelled, then full, then a duplicate
      (event, email) pair; every failure leaves the tables as they were. */
  lemma RegisterErrors(t: Tables, id: int, name: string, email: string)
    requires Valid(t)
    ensures var r := Register(t, id, name, email).1;
      r == Err(NotFound) <==> forall i :: 0 <= i < |t.events| ==> t.events[i].id != id
    ensures var r := Register(t, id, name, email).1;
      forall k :: 0 <= k < |t.events| && t.events[k].id == id ==>
        && (r == Err(Cancelled) <==> t.events[k].isCancelled)
        && (r == Err(Full) <==> !t.events[k].isCancelled && CountFor(t.registrations, id) >= t.events[k].capacity)
        && (r == Err(Duplicate) <==>
              !t.events[k].isCancelled && CountFor(t.registrations, id) < t.events[k].capacity && Registered(t.registrations, id, email))
        && (r.Ok? <==>
              !t.events[k].isCancelled && CountFor(t.registrations, id) < t.events[k].capacity && !Registered(t.registrations, id, email))
    ensures Register(t, id, name, email).1.Err? ==> Register(t, id, name, email).0 == t
  {
    forall k | 0 <= k < |t.events| && t.events[k].id == id ensures FindEvent(t.events, id) == Some(k) {
      FindEventUnique(t, k);
    }
  }

  /** What a successful registration has checked, and the tables it leaves. */
  lemma RegisterAccepted(t: Tables, id: int, name: string, email: string)
    requires Register(t, id, name, email).1.Ok?
    ensures FindEvent(t.events, id).Some?
    ensures !t.events[FindEvent(t.events, id).value].isCancelled
    ensures CountFor(t.registrations, id) < t.events[FindEvent(t.events, id).value].capacity
    ensures !Registered(t.registrations, id, email)
    ensures Register(t, id, name, email).0 ==
      t.(registrations := t.registrations + [Registration(t.nextRegistrationId, id, name, email)],
         nextRegistrationId := t.nextRegistrationId + 1)
  {
  }

  /** A successful registration adds exactly one row, for the event and the
      email given, raises the event's count by one, and keeps the count within
      the capacity and the (event, email) pairs distinct. */
  lemma RegisterSuccess(t: Tables, id: int, name: string, email: string)
    requires Valid(t)
    requires Register(t, id, name, email).1.Ok?
    ensures var t' := Register(t, id, name, email).0;
      && t'.registrations == t.registrations + [Registration(t.nextRegistrationId, id, name, email)]
      && t'.events == t.events
      && CountFor(t'.registrations, id) == CountFor(t.registrations, id) + 1
      && CountFor(t'.registrations, id) <= t.events[FindEvent(t.events, id).value].capacity
      && UniquePairs(t'.registrations)
  {
    RegisterAccepted(t, id, name, email);
    var reg := Registration(t.nextRegistrationId, id, name, email);
    CountForAppend(t.registrations, reg, id);
    AppendUnregisteredKeepsUnique(t.registrations, reg);
  }

  lemma AppendUnregisteredKeepsUnique(regs: seq<Registration>, r: Registration)
    requires UniquePairs(regs)
    requires !Registered(regs, r.eventId, r.email)
    ensures UniquePairs(regs + [r])
  {
    var s := regs + [r];
    forall i, j | 0 <= i < j < |s| ensures s[i].eventId != s[j].eventId || s[i].email != s[j].email {
      if j == |regs| {
        assert s[i] == regs[i] && s[j] == r;
      } else {
        assert s[i] == regs[i] && s[j] == regs[j];
      }
    }
  }

  lemma CountForAppend(regs: seq<Registration>, r: Registration, id: int)
    ensures CountFor(regs + [r], id) == CountFor(regs, id) + if r.eventId == id then 1 else 0
  {
    assert (regs + [r])[..|regs|] == regs;
  }

  lemma RegisterPreservesValid(t: Tables, id: int, name: string, email: string)
    requires Valid(t)
    ensures Valid(Register(t, id, name, email).0)
  {
    if Register(t, id, name, email).1.Ok? {
      RegisterAccepted(t, id, name, email);
      var reg := Registration(t.nextRegistrationId, id, name, email);
      var t' := t.(registrations := t.registrations + [reg], nextRegistrationId := t.nextRegistrationId + 1);
      assert EventIdsFresh(t');
      assert RegistrationIdsFresh(t') by {
        forall i | 0 <= i < |t'.registrations| ensures 1 <= t'.registrations[i].id < t'.nextRegistrationId {
          if i < |t.registrations| { assert t'.registrations[i] == t.registrations[i]; }
        }
      }
      assert ReferencesExist(t') by {
        forall i | 0 <= i < |t'.registrations| ensures FindEvent(t'.events, t'.registrations[i].eventId).Some? {
          if i < |t.registrations| { assert t'.registrations[i] == t.registrations[i]; }
        }
      }
      AppendUnregisteredKeepsUnique(t.registrations, reg);
      assert WithinCapacity(t') by {
        forall i | 0 <= i < |t'.events|
          ensures CountFor(t'.registrations, t'.events[i].id) <= if t'.events[i].capacity < 0 then 0 else t'.events[i].capacity
        {
          CountForAppend(t.registrations, reg, t.events[i].id);
          if t.events[i].id == id {
            FindEventUnique(t, i);
          }
        }
      }
      assert EventsWellFormed(t');
    }
  }

  /** Cancel replies success whatever the id: it sets the flag of the event
      with that id and changes nothing else, and nothing at all for an id no
      event has. */
  lemma CancelEffect(t: Tables, id: int)
    ensures var t' := Cancel(t, id);
      && |t'.events| == |t.events|
      && t'.registrations == t.registrations
      && t'.nextEventId == t.nextEventId && t'.nextRegistrationId == t.nextRegistrationId
      && (forall k :: 0 <= k < |t.events| && t.events[k].id == id ==>
            t'.events[k] == t.events[k].(isCancelled := true))
      && (forall k :: 0 <= k < |t.events| && t.events[k].id != id ==> t'.events[k] == t.events[k])
    ensures (forall k :: 0 <= k < |t.events| ==> t.events[k].id != id) ==> Cancel(t, id) == t
  {
    var t' := Cancel(t, id);
    if forall k :: 0 <= k < |t.events| ==> t.events[k].id != id {
      assert t'.events == t.events;
    }
  }

  /** Cancelling twice is the same as cancelling once. */
  lemma CancelIdempotent(t: Tables, id: int)
    ensures Cancel(Cancel(t, id), id) == Cancel(t, id)
  {
    assert MarkCancelled(MarkCancelled(t.events, id), id) == MarkCancelled(t.events, id);
  }

  lemma CancelPreservesValid(t: Tables, id: int)
    requires Valid(t)
    ensures Valid(Cancel(t, id))
  {
    var t' := Cancel(t, id);
    SameRowsFindSame(t.events, t'.events);
    assert EventIdsFresh(t');
    assert ReferencesExist(t');
    assert WithinCapacity(t');
    assert EventsWellFormed(t');
  }

  /** Rows that differ only in the cancellation flag. */
  predicate SameRowsButFlag(a: seq<Event>, b: seq<Event>) {
    |a| == |b| && forall i :: 0 <= i < |a| ==> b[i] == a[i].(isCancelled := b[i].isCancelled)
  }

  lemma {:induction false} SameRowsFindSame(a: seq<Event>, b: seq<Event>)
    requires SameRowsButFlag(a, b)
    ensures forall id :: FindEvent(a, id) == FindEvent(b, id)
  {
    if a != [] {
      assert SameRowsButFlag(a[1..], b[1..]) by {
        forall i | 0 <= i < |a| - 1 ensures b[1..][i] == a[1..][i].(isCancelled := b[1..][i].isCancelled) {
          assert b[1..][i] == b[i + 1] && a[1..][i] == a[i + 1];
        }
      }
      SameRowsFindSame(a[1..], b[1..]);
    }
  }
}
