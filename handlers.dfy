/**
  The request handlers of IngressoResource and EventoResource (and the
  performer insert of ArtistaResource) as methods of one in-memory store.
  Each handler runs in a single transaction, so each method is atomic.
 */
module Handlers {
  import opened Records
  import Ledger
  import Association

  class Store {
    var events: map<Id, Event>
    var tickets: map<Id, Ticket>
    var artists: map<Id, Artist>
    var nextEvent: Id
    var nextTicket: Id
    var nextArtist: Id

    /** The store's contents as a value. */
    function State(): Db
      reads this
    {
      Db(events, tickets, artists, nextEvent, nextTicket, nextArtist)
    }

    /** Every store the handlers reach: ids issued in order, and each pair listed on both sides alike or on the event side only. */
    ghost predicate Valid()
      reads this
    {
      WellFormed(State()) && EventLed(State())
    }

    constructor ()
      ensures Valid()
      ensures State() == Db(map[], map[], map[], 0, 0, 0)
    {
      events, tickets, artists := map[], map[], map[];
      nextEvent, nextTicket, nextArtist := 0, 0, 0;
    }

    // -------------------------------------------------------------------------
    // /ingressos

    /** GET /ingressos/{id}. */
    method GetTicket(id: Id) returns (r: Outcome, t: Option<Ticket>)
      ensures id in tickets ==> r == Ok && t == Some(tickets[id])
      ensures id !in tickets ==> r == NotFound && t == None
    {
      if id !in tickets {
        return NotFound, None;
      }
      r, t := Ok, Some(tickets[id]);
    }

    /** POST /ingressos: the capacity-checked purchase; `now` is the server clock. */
    method InsertTicket(req: Ledger.TicketRequest, now: Timestamp) returns (r: Outcome, created: Option<Id>)
      requires Valid()
      modifies this
      ensures Valid()
      ensures (State(), r) == Ledger.Issue(old(State()), req, now)
      ensures created == if r == Created then Some(old(nextTicket)) else None
    {
      if req.eventId !in events {
        return NotFound, None;
      }
      var ev := events[req.eventId];
      var sold := Ledger.TicketCount(tickets, req.eventId);
      if sold + req.quantity > ev.capacity {
        return BadRequest, None;
      }
      var ticket := Ledger.NewTicket(req, ev, now);
      created := Some(nextTicket);
      tickets := tickets[nextTicket := ticket];
      nextTicket := nextTicket + 1;
      if Ledger.TicketCount(tickets, req.eventId) >= ev.capacity {
        events := events[req.eventId := ev.(status := SoldOut)];
      } else {
        assert events == events[req.eventId := ev];
      }
      r := Created;
      assert (State(), r) == Ledger.Issue(old(State()), req, now);
    }

    /**
      PUT /ingressos/{id}: overwrites buyer name, buyer email, quantity and
      status, and nothing else; there is no capacity check, and no event's
      record count moves.
     */
    method UpdateTicket(id: Id, patch: Ticket) returns (r: Outcome)
      requires Valid()
      modifies this
      ensures Valid()
      ensures id !in old(tickets) ==> r == NotFound && State() == old(State())
      ensures id in old(tickets) ==>
                r == Ok &&
                State() == old(State()).(tickets := old(tickets)[id := old(tickets)[id].(
          buyerName := patch.buyerName, buyerEmail := patch.buyerEmail,
          quantity := patch.quantity, status := patch.status)])
      ensures forall e :: Ledger.TicketCount(tickets, e) == Ledger.TicketCount(old(tickets), e)
    {
      if id !in tickets {
        return NotFound;
      }
      var entity := tickets[id];
      entity := entity.(buyerName := patch.buyerName);
      entity := entity.(buyerEmail := patch.buyerEmail);
      entity := entity.(quantity := patch.quantity);
      entity := entity.(status := patch.status);
      tickets := tickets[id := entity];
      r := Ok;
      forall e ensures Ledger.TicketCount(tickets, e) == Ledger.TicketCount(old(tickets), e) {
        Ledger.CountAfterEdit(old(tickets), id, entity, e);
      }
    }

    /** PUT /ingressos/{id}/status: any status may replace any other. */
    method UpdateTicketStatus(id: Id, status: TicketStatus) returns (r: Outcome)
      requires Valid()
      modifies this
      ensures Valid()
      ensures id !in old(tickets) ==> r == NotFound && State() == old(State())
      ensures id in old(tickets) ==>
                r == Ok &&
                State() == old(State()).(tickets := old(tickets)[id := old(tickets)[id].(status := status)])
    {
      if id !in tickets {
        return NotFound;
      }
      tickets := tickets[id := tickets[id].(status := status)];
      r := Ok;
    }

    /**
      DELETE /ingressos/{id}: removes exactly that ticket. Its event's record
      count drops by one but the event, SoldOut or not, is left as it is, and
      no association changes.
     */
    method DeleteTicket(id: Id) returns (r: Outcome)
      requires Valid()
      modifies this
      ensures Valid()
      ensures id !in old(tickets) ==> r == NotFound && State() == old(State())
      ensures id in old(tickets) ==> r == NoContent && State() == old(State()).(tickets := old(tickets) - {id})
      ensures Ledger.WithinCapacity(old(State())) ==> Ledger.WithinCapacity(State())
    {
      if id !in tickets {
        return NotFound;
      }
      tickets := tickets - {id};
      r := NoContent;
      forall e ensures Ledger.TicketCount(tickets, e) <= Ledger.TicketCount(old(tickets), e) {
        Ledger.CountAfterRemove(old(tickets), id, e);
      }
    }

    // -------------------------------------------------------------------------
    // /eventos

    /**
      POST /eventos: the event keeps only the requested performers whose id
      is present and names an existing performer, and is stored under the
      next event id. The performers are not told about it.
     */
    method InsertEvent(req: Association.EventRequest) returns (r: Outcome, id: Id)
      requires Valid()
      modifies this
      ensures Valid()
      ensures r == Created && id == old(nextEvent)
      ensures State() == Association.InsertEvent(old(State()), req)
    {
      var picked: seq<Id> := [];
      if req.artists.Some? && req.artists.value != [] {
        var reqs := req.artists.value;
        var i := 0;
        while i < |reqs|
          invariant 0 <= i <= |reqs|
          invariant picked == Association.Requested(artists, reqs[..i])
        {
          var entry := reqs[i];
          if entry.Some? && entry.value in artists {
            picked := picked + [entry.value];
          }
          assert reqs[..i + 1][..i] == reqs[..i];
          i := i + 1;
        }
        assert reqs[..|reqs|] == reqs;
      }
      Association.InsertEventLinks(State(), req);
      Association.InsertEventKeepsEventLed(State(), req);
      id := nextEvent;
      events := events[id := Association.NewEvent(req, picked)];
      nextEvent := nextEvent + 1;
      r := Created;
    }

    /**
      PUT /eventos/{id}: copies the seven scalar fields and, when the request
      carries a performer list, strips the event from its old performers and
      links the requested existing ones on both sides, in request order.
     */
    method UpdateEvent(id: Id, req: Association.EventRequest) returns (r: Outcome)
      requires Valid()
      modifies this
      ensures Valid()
      ensures id !in old(events) ==> r == NotFound && State() == old(State())
      ensures id in old(events) ==> r == Ok && State() == Association.UpdateEvent(old(State()), id, req)
      ensures Balanced(old(State())) ==> Balanced(State())
      ensures Consistent(old(State())) ==> Consistent(State())
    {
      if id !in events {
        return NotFound;
      }
      Association.UpdateEventKeepsStore(State(), id, req);
      Update(id, req);
      r := Ok;
    }

    /** The body of update on an existing event: copy the fields, then strip, clear and re-link when a list is given. */
    method Update(id: Id, req: Association.EventRequest)
      requires id in events
      modifies this
      ensures State() == Association.UpdateEvent(old(State()), id, req)
    {
      ghost var db := State();
      events := events[id := events[id].(
        name := req.name, description := req.description, date := req.date, venue := req.venue,
        capacity := req.capacity, price := req.price, status := req.status)];
      if req.artists.Some? {
        StripFromArtists(id, events[id].artists);
        events := events[id := events[id].(artists := [])];
        assert State() == Association.Cleared(db, id, req);
        LinkRequested(id, req.artists.value);
      }
    }

    /** The first loop of update: event `id` is removed once from the list of each performer in `olds` that exists. */
    method StripFromArtists(id: Id, olds: seq<Id>)
      modifies this
      ensures State() == old(State()).(artists := Association.Strip(old(artists), id, olds))
    {
      var i := 0;
      while i < |olds|
        invariant 0 <= i <= |olds|
        invariant State() == old(State()).(artists := Association.Strip(old(artists), id, olds[..i]))
      {
        var aid := olds[i];
        if aid in artists {
          artists := artists[aid := artists[aid].(events := RemoveFirst(artists[aid].events, id))];
        }
        assert olds[..i + 1][..i] == olds[..i];
        i := i + 1;
      }
      assert olds[..|olds|] == olds;
    }

    /** The second loop of update: each request entry naming an existing performer is linked to event `id` on both sides. */
    method LinkRequested(id: Id, reqs: seq<Option<Id>>)
      requires id in events
      modifies this
      ensures State() == Association.LinkAll(old(State()), id, reqs)
    {
      var j := 0;
      while j < |reqs|
        invariant 0 <= j <= |reqs|
        invariant State() == Association.LinkAll(old(State()), id, reqs[..j])
      {
        var entry := reqs[j];
        if entry.Some? && entry.value in artists {
          var aid := entry.value;
          events := events[id := events[id].(artists := events[id].artists + [aid])];
          artists := artists[aid := artists[aid].(events := artists[aid].events + [id])];
        }
        assert reqs[..j + 1][..j] == reqs[..j];
        j := j + 1;
      }
      assert reqs[..|reqs|] == reqs;
    }

    /**
      PUT /eventos/{id}/artistas: links each requested existing performer not
      yet listed by the event, on both sides; unknown ids are skipped.
     */
    method AddArtists(id: Id, artistIds: seq<Id>) returns (r: Outcome)
      requires Valid()
      modifies this
      ensures Valid()
      ensures id !in old(events) ==> r == NotFound && State() == old(State())
      ensures id in old(events) ==> r == Ok && State() == Association.AddArtists(old(State()), id, artistIds)
      ensures Consistent(old(State())) ==> Consistent(State())
      ensures Balanced(old(State())) ==> Balanced(State())
    {
      if id !in events {
        return NotFound;
      }
      Association.AddArtistsKeepsStore(State(), id, artistIds);
      LinkMissing(id, artistIds);
      r := Ok;
    }

    /** The loop of addArtistas: each id naming an existing performer not yet listed by event `id` is linked on both sides. */
    method LinkMissing(id: Id, artistIds: seq<Id>)
      requires id in events
      modifies this
      ensures State() == Association.AddArtists(old(State()), id, artistIds)
    {
      var i := 0;
      while i < |artistIds|
        invariant 0 <= i <= |artistIds|
        invariant State() == Association.AddArtists(old(State()), id, artistIds[..i])
      {
        var aid := artistIds[i];
        if aid in artists && aid !in events[id].artists {
          events := events[id := events[id].(artists := events[id].artists + [aid])];
          artists := artists[aid := artists[aid].(events := artists[aid].events + [id])];
        }
        assert artistIds[..i + 1][..i] == artistIds[..i];
        i := i + 1;
      }
      assert artistIds[..|artistIds|] == artistIds;
    }

    /** DELETE /eventos/{id}/artistas/{artistaId}: one occurrence of each removed from the other's list. */
    method RemoveArtist(id: Id, artistId: Id) returns (r: Outcome)
      requires Valid()
      modifies this
      ensures Valid()
      ensures id !in old(events) || artistId !in old(artists) ==> r == NotFound && State() == old(State())
      ensures id in old(events) && artistId in old(artists) ==>
        r == Ok && State() == Association.Unlink(old(State()), id, artistId)
      ensures Balanced(old(State())) ==> Balanced(State())
      ensures Consistent(old(State())) ==> Consistent(State())
    {
      if id !in events || artistId !in artists {
        return NotFound;
      }
      Association.UnlinkKeepsStore(State(), id, artistId);
      events := events[id := events[id].(artists := RemoveFirst(events[id].artists, artistId))];
      artists := artists[artistId := artists[artistId].(events := RemoveFirst(artists[artistId].events, id))];
      r := Ok;
    }

    /** PUT /eventos/{id}/status: any status may replace any other. */
    method UpdateEventStatus(id: Id, status: EventStatus) returns (r: Outcome)
      requires Valid()
      modifies this
      ensures Valid()
      ensures id !in old(events) ==> r == NotFound && State() == old(State())
      ensures id in old(events) ==>
                r == Ok &&
                State() == old(State()).(events := old(events)[id := old(events)[id].(status := status)])
      ensures Balanced(old(State())) ==> Balanced(State())
    {
      if id !in events {
        return NotFound;
      }
      events := events[id := events[id].(status := status)];
      r := Ok;
    }

    /**
      DELETE /eventos/{id}: the event leaves the store; its tickets and the
      performers' lists are not touched, and the association among the
      remaining records stays as consistent as it was.
     */
    method DeleteEvent(id: Id) returns (r: Outcome)
      requires Valid()
      modifies this
      ensures Valid()
      ensures id !in old(events) ==> r == NotFound && State() == old(State())
      ensures id in old(events) ==> r == NoContent && State() == old(State()).(events := old(events) - {id})
      ensures Balanced(old(State())) ==> Balanced(State())
      ensures Consistent(old(State())) ==> Consistent(State())
    {
      if id !in events {
        return NotFound;
      }
      events := events - {id};
      r := NoContent;
    }

    /**
      GET /eventos/{id}/ingressos: the tickets that reference the id, or
      NoContent when there are none; an unknown id is not a NotFound.
     */
    method TicketsOfEvent(id: Id) returns (r: Outcome, found: set<Id>)
      ensures forall t :: t in found <==> t in tickets && tickets[t].event == id
      ensures r == NoContent <==> (forall t :: t in tickets ==> tickets[t].event != id)
      ensures r == Ok || r == NoContent
    {
      found := Ledger.TicketsOf(tickets, id);
      r := if found == {} then NoContent else Ok;
    }

    // -------------------------------------------------------------------------
    // /artistas

    /** POST /artistas: a new performer, linked to no event, under the next performer id. */
    method InsertArtist(name: string, genre: string, biography: string) returns (r: Outcome, id: Id)
      requires Valid()
      modifies this
      ensures Valid()
      ensures r == Created && id == old(nextArtist)
      ensures State() == old(State()).(artists := old(artists)[id := Artist(name, genre, biography, [])],
                                       nextArtist := old(nextArtist) + 1)
      ensures Balanced(old(State())) ==> Balanced(State())
    {
      id := nextArtist;
      assert forall e :: e in events ==> id !in events[e].artists;
      artists := artists[id := Artist(name, genre, biography, [])];
      nextArtist := nextArtist + 1;
      r := Created;
    }
  }

  /** A fresh store holding one Scheduled event, priced 50 with the given capacity, and nothing else. */
  method NewShow(capacity: int) returns (store: Store, e: Id)
    ensures fresh(store) && store.Valid()
    ensures store.State() == Ledger.EmptyEventDb(capacity, Scheduled) && e == 0
  {
    store := new Store();
    var _, id := store.InsertEvent(Association.EventRequest("show", "", 0, "hall", capacity, 50, Scheduled, None));
    e := id;
  }

  /**
    An event of capacity 2 at price 50 and three one-seat purchases: the
    first leaves the event Scheduled, the second fills it and makes it
    SoldOut, the third is refused, and two ticket records remain.
   */
  method SoldOutScenario() returns (outcomes: seq<Outcome>, statuses: seq<EventStatus>, sold: nat)
    ensures outcomes == [Created, Created, BadRequest]
    ensures statuses == [Scheduled, SoldOut, SoldOut]
    ensures sold == 2
  {
    var store, e := NewShow(2);
    Ledger.TwoSeatsSellOut();
    var req := Ledger.TicketRequest(e, "ana", "ana@x", 1);
    var r1, _ := store.InsertTicket(req, 10);
    var s1 := store.events[e].status;
    var r2, _ := store.InsertTicket(req, 11);
    var s2 := store.events[e].status;
    var r3, _ := store.InsertTicket(req, 12);
    var s3 := store.events[e].status;
    outcomes, statuses := [r1, r2, r3], [s1, s2, s3];
    sold := Ledger.TicketCount(store.tickets, e);
  }
}
