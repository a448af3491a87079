/** The running service's store: both tables as fields that the handlers
    update in place, one method per request handler. */
module Registry {
  import opened JsValues
  import opened Store
  import Listing

  class EventRegistry {
    var events: seq<Event>
    var registrations: seq<Registration>
    var nextEventId: int
    var nextRegistrationId: int

    /** The tables the fields hold. */
    function State(): Tables
      reads this
    {
      Tables(events, registrations, nextEventId, nextRegistrationId)
    }

    predicate Valid()
      reads this
    {
      Store.Valid(State())
    }

    /** Opening a new database file: `CREATE TABLE IF NOT EXISTS` gives two
        empty tables. */
    constructor ()
      ensures Valid() && State() == Empty
    {
      events := [];
      registrations := [];
      nextEventId := 1;
      nextRegistrationId := 1;
    }

    /** POST /api/events. */
    method CreateEvent(input: EventInput, now: int) returns (r: Result<Created>)
      requires Valid()
      modifies this
      ensures Valid()
      ensures (State(), r) == Store.CreateEvent(old(State()), input, now)
    {
      CreateEventPreservesValid(State(), input, now);
      if !TruthyText(input.name) || input.date.None? || !TruthyNumber(input.capacity) {
        return Err(Missing);
      }
      if input.date.value <= now {
        return Err(PastDate);
      }
      var id := nextEventId;
      events := events + [Event(id, input.name.value, input.date.value, input.capacity.value, false)];
      nextEventId := nextEventId + 1;
      r := Ok(Created(id, input.name.value, input.date.value, input.capacity.value));
    }

    /** POST /api/events/:id/register. */
    method Register(id: int, name: string, email: string) returns (r: Result<()>)
      requires Valid()
      modifies this
      ensures Valid()
      ensures (State(), r) == Store.Register(old(State()), id, name, email)
    {
      ghost var t := State();
      var found := FindEvent(events, id);
      if found.None? {
        assert Store.Register(t, id, name, email) == (t, Err(NotFound));
        return Err(NotFound);
      }
      var event := events[found.value];
      if event.isCancelled {
        assert Store.Register(t, id, name, email) == (t, Err(Cancelled));
        return Err(Cancelled);
      }
      var count := CountFor(registrations, id);
      if count >= event.capacity {
        assert Store.Register(t, id, name, email) == (t, Err(Full));
        return Err(Full);
      }
      if Registered(registrations, id, email) {
        assert Store.Register(t, id, name, email) == (t, Err(Duplicate));
        return Err(Duplicate);
      }
      registrations := registrations + [Registration(nextRegistrationId, id, name, email)];
      nextRegistrationId := nextRegistrationId + 1;
      r := Ok(());
      assert (State(), r) == Store.Register(t, id, name, email);
      RegisterPreservesValid(t, id, name, email);
    }

    /** POST /api/events/:id/cancel: always replies success. */
    method Cancel(id: int)
      requires Valid()
      modifies this
      ensures Valid()
      ensures State() == Store.Cancel(old(State()), id)
    {
      CancelPreservesValid(State(), id);
      events := MarkCancelled(events, id);
    }

    /** GET /api/events, for a page and a limit that are positive once parsed. */
    method ListEvents(q: Listing.ListQuery) returns (page: seq<Event>)
      requires Listing.PageOf(q) >= 1 && Listing.LimitOf(q) >= 1
      ensures page == Listing.ListEvents(events, q)
    {
      page := Listing.ListEvents(events, q);
    }

    /** GET /api/events/:id/stats. */
    method Stats(id: int) returns (total: nat)
      ensures total == |RegistrationsOf(registrations, id)|
    {
      total := CountFor(registrations, id);
    }
  }

  /** 2099-01-01T00:00:00Z in milliseconds since the epoch. */
  const LaunchDate := 4_070_908_800_000

  /** A capacity-one event: the first registration succeeds, the second is
      refused as full, and stats then report one registration. */
  method LaunchScenario(now: int)
    returns (created: Result<Created>, first: Result<()>, second: Result<()>, total: nat)
    requires now < LaunchDate
    ensures created == Ok(Created(1, "Launch", LaunchDate, 1))
    ensures first == Ok(()) && second == Err(Full) && total == 1
  {
    var store := new EventRegistry();
    created := store.CreateEvent(EventInput(Some("Launch"), Some(LaunchDate), Some(1)), now);
    first := store.Register(created.value.id, "A", "a@x.com");
    assert CountFor(store.registrations, 1) == 1 by {
      CountForAppend([], store.registrations[0], 1);
      assert store.registrations == [] + [store.registrations[0]];
    }
    second := store.Register(created.value.id, "B", "b@x.com");
    total := store.Stats(created.value.id);
  }
}
