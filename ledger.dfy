/**
  Ticket issuance (IngressoResource.insert): the capacity check against the
  event's existing ticket records, the ticket the purchase creates, and the
  switch of the event to SoldOut once the records reach capacity.
 */
module Ledger {
  import opened Records

  /** The purchase request body (CreateIngressoRequest). */
  datatype TicketRequest = TicketRequest(eventId: Id, buyerName: string, buyerEmail: string, quantity: int)

  /** The ids of the ticket records that reference event `e`. */
  function TicketsOf(tickets: map<Id, Ticket>, e: Id): set<Id> {
    set t | t in tickets && tickets[t].event == e
  }

  /** How many ticket records reference `e`: rows, not seats, and cancelled tickets included. */
  function TicketCount(tickets: map<Id, Ticket>, e: Id): (n: nat)
    ensures n <= |tickets|
    ensures n == 0 <==> forall t :: t in tickets ==> tickets[t].event != e
  {
    var ts := TicketsOf(tickets, e);
    SubsetCard(ts, tickets.Keys);
    assert forall t :: t in ts <==> t in tickets && tickets[t].event == e;
    assert |ts| == 0 <==> ts == {};
    |ts|
  }

  /** A subset is no larger than its superset. */
  lemma {:induction false} SubsetCard(a: set<Id>, b: set<Id>)
    requires a <= b
    ensures |a| <= |b|
    decreases b
  {
    if a != {} {
      var x :| x in a;
      SubsetCard(a - {x}, b - {x});
    }
  }

  /** Every event has at most as many ticket records as its capacity. */
  ghost predicate WithinCapacity(db: Db) {
    forall e :: e in db.events ==> TicketCount(db.tickets, e) <= db.events[e].capacity
  }

  /** Storing a new record under a fresh id adds one to its event's count and leaves every other count alone. */
  lemma CountAfterAdd(tickets: map<Id, Ticket>, t: Id, tk: Ticket, e: Id)
    requires t !in tickets
    ensures TicketCount(tickets[t := tk], e) == TicketCount(tickets, e) + (if tk.event == e then 1 else 0)
  {
    if tk.event == e {
      assert TicketsOf(tickets[t := tk], e) == TicketsOf(tickets, e) + {t};
    } else {
      assert TicketsOf(tickets[t := tk], e) == TicketsOf(tickets, e);
    }
  }

  /** Deleting a record takes one off its event's count and leaves every other count alone. */
  lemma CountAfterRemove(tickets: map<Id, Ticket>, t: Id, e: Id)
    requires t in tickets
    ensures TicketCount(tickets - {t}, e) == TicketCount(tickets, e) - (if tickets[t].event == e then 1 else 0)
  {
    if tickets[t].event == e {
      assert TicketsOf(tickets - {t}, e) == TicketsOf(tickets, e) - {t};
    } else {
      assert TicketsOf(tickets - {t}, e) == TicketsOf(tickets, e);
    }
  }

  /** Rewriting a record without moving it to another event changes no count. */
  lemma CountAfterEdit(tickets: map<Id, Ticket>, t: Id, tk: Ticket, e: Id)
    requires t in tickets && tickets[t].event == tk.event
    ensures TicketCount(tickets[t := tk], e) == TicketCount(tickets, e)
  {
    assert TicketsOf(tickets[t := tk], e) == TicketsOf(tickets, e);
  }

  /** The ticket a purchase creates: server-set status and time, total frozen at quantity times the unit price. */
  function NewTicket(req: TicketRequest, ev: Event, now: Timestamp): (t: Ticket)
    ensures t.event == req.eventId && t.status == Reserved && t.purchasedAt == now
    ensures t.totalPrice == t.quantity * ev.price
  {
    Ticket(req.eventId, req.buyerName, req.buyerEmail, req.quantity, now, req.quantity * ev.price, Reserved)
  }

  /**
    IngressoResource.insert: NotFound for an unknown event, BadRequest when
    the records already there plus the requested quantity exceed capacity,
    and otherwise a new Reserved ticket under the next ticket id, after which
    the event becomes SoldOut if its records have reached capacity.
   */
  function Issue(db: Db, req: TicketRequest, now: Timestamp): (res: (Db, Outcome))
    ensures res.1 == Created || res.1 == NotFound || res.1 == BadRequest
    ensures res.1 == NotFound <==> req.eventId !in db.events
    ensures res.1 == BadRequest <==>
      req.eventId in db.events && TicketCount(db.tickets, req.eventId) + req.quantity > db.events[req.eventId].capacity
    ensures res.1 != Created ==> res.0 == db
    ensures res.1 == Created ==>
      && res.0.artists == db.artists
      && res.0.events.Keys == db.events.Keys
      && res.0.nextEvent == db.nextEvent && res.0.nextArtist == db.nextArtist
      && res.0.nextTicket == db.nextTicket + 1
    ensures forall e :: e in db.events ==> res.0.events[e].artists == db.events[e].artists
    ensures WellFormed(db) ==> WellFormed(res.0)
    ensures EventLed(db) ==> EventLed(res.0)
  {
    if req.eventId !in db.events then (db, NotFound)
    else
      var ev := db.events[req.eventId];
      if TicketCount(db.tickets, req.eventId) + req.quantity > ev.capacity then (db, BadRequest)
      else
        var tickets' := db.tickets[db.nextTicket := NewTicket(req, ev, now)];
        var ev' := if TicketCount(tickets', req.eventId) >= ev.capacity then ev.(status := SoldOut) else ev;
        (db.(events := db.events[req.eventId := ev'], tickets := tickets', nextTicket := db.nextTicket + 1), Created)
  }

  /** A successful purchase adds exactly one ticket, under a fresh id, carrying the request's data. */
  lemma IssueCreatesOneTicket(db: Db, req: TicketRequest, now: Timestamp)
    requires WellFormed(db)
    requires Issue(db, req, now).1 == Created
    ensures db.nextTicket !in db.tickets
    ensures Issue(db, req, now).0.tickets == db.tickets[db.nextTicket := NewTicket(req, db.events[req.eventId], now)]
    ensures var t := Issue(db, req, now).0.tickets[db.nextTicket];
      && t.status == Reserved && t.event == req.eventId
      && t.buyerName == req.buyerName && t.buyerEmail == req.buyerEmail && t.quantity == req.quantity
      && t.purchasedAt == now && t.totalPrice == req.quantity * db.events[req.eventId].price
  {
  }

  /**
    After a successful purchase of at least one seat the event has one more
    ticket record and no more records than its capacity; no other event's
    count moves.
   */
  lemma IssueRespectsCapacity(db: Db, req: TicketRequest, now: Timestamp)
    requires WellFormed(db) && req.quantity >= 1
    requires Issue(db, req, now).1 == Created
    ensures TicketCount(Issue(db, req, now).0.tickets, req.eventId) == TicketCount(db.tickets, req.eventId) + 1
    ensures TicketCount(Issue(db, req, now).0.tickets, req.eventId) <= db.events[req.eventId].capacity
    ensures forall e :: e != req.eventId ==> TicketCount(Issue(db, req, now).0.tickets, e) == TicketCount(db.tickets, e)
  {
    var tk := NewTicket(req, db.events[req.eventId], now);
    CountAfterAdd(db.tickets, db.nextTicket, tk, req.eventId);
    forall e | e != req.eventId
      ensures TicketCount(Issue(db, req, now).0.tickets, e) == TicketCount(db.tickets, e)
    {
      CountAfterAdd(db.tickets, db.nextTicket, tk, e);
    }
  }

  /**
    After a successful purchase the event is SoldOut exactly when its record
    count (old count plus one) has reached capacity; otherwise its status is
    as before. Nothing else about the event, or any other event, changes.
   */
  lemma IssueSoldOut(db: Db, req: TicketRequest, now: Timestamp)
    requires WellFormed(db)
    requires Issue(db, req, now).1 == Created
    ensures var ev := db.events[req.eventId];
      Issue(db, req, now).0.events[req.eventId] ==
        ev.(status := if TicketCount(db.tickets, req.eventId) + 1 >= ev.capacity then SoldOut else ev.status)
    ensures forall e :: e in db.events && e != req.eventId ==> Issue(db, req, now).0.events[e] == db.events[e]
  {
    CountAfterAdd(db.tickets, db.nextTicket, NewTicket(req, db.events[req.eventId], now), req.eventId);
  }

  /** Purchases of at least one seat never push any event over capacity. */
  lemma IssueKeepsWithinCapacity(db: Db, req: TicketRequest, now: Timestamp)
    requires WellFormed(db) && WithinCapacity(db) && req.quantity >= 1
    ensures WithinCapacity(Issue(db, req, now).0)
  {
    if Issue(db, req, now).1 == Created {
      IssueRespectsCapacity(db, req, now);
      IssueSoldOut(db, req, now);
    }
  }

  /** A store with one event (id 0) of the given capacity and status, and no tickets. */
  function EmptyEventDb(capacity: int, status: EventStatus): Db {
    Db(map[0 := Event("show", "", 0, "hall", capacity, 50, status, [])], map[], map[], 1, 0, 0)
  }

  /** A store with one SoldOut event of capacity 1 whose single ticket record fills it. */
  function SoldOutDb(): Db {
    Db(map[0 := Event("show", "", 0, "hall", 1, 50, SoldOut, [])],
       map[0 := Ticket(0, "a", "a@x", 1, 0, 50, Reserved)],
       map[], 1, 1, 0)
  }

  /**
    Without the request validation that rejects a zero quantity, a purchase
    of zero seats on a sold-out event is accepted (1 + 0 <= 1) and leaves two
    records against a capacity of 1.
   */
  lemma ZeroQuantityOverfills()
    ensures var db := SoldOutDb();
      var res := Issue(db, TicketRequest(0, "b", "b@x", 0), 0);
      && TicketCount(db.tickets, 0) == db.events[0].capacity
      && res.1 == Created
      && TicketCount(res.0.tickets, 0) == 2 > res.0.events[0].capacity
  {
    var db := SoldOutDb();
    assert TicketsOf(db.tickets, 0) == {0};
    CountAfterAdd(db.tickets, 1, NewTicket(TicketRequest(0, "b", "b@x", 0), db.events[0], 0), 0);
  }

  /**
    The purchase does not look at the event's status: a cancelled event
    still sells, and the sale that fills it overwrites EventCancelled with
    SoldOut.
   */
  lemma CancelledEventSellsOut()
    ensures var res := Issue(EmptyEventDb(1, EventCancelled), TicketRequest(0, "b", "b@x", 1), 0);
      res.1 == Created && res.0.events[0].status == SoldOut
  {
    var db := EmptyEventDb(1, EventCancelled);
    assert TicketsOf(db.tickets, 0) == {};
    CountAfterAdd(db.tickets, 0, NewTicket(TicketRequest(0, "b", "b@x", 1), db.events[0], 0), 0);
  }

  /**
    Three one-seat purchases on an event of capacity 2: the first is accepted
    and leaves the event Scheduled, the second is accepted and makes it
    SoldOut, the third is refused and changes nothing, leaving two records.
   */
  lemma TwoSeatsSellOut()
    ensures var req := TicketRequest(0, "ana", "ana@x", 1);
      var s1 := Issue(EmptyEventDb(2, Scheduled), req, 10);
      var s2 := Issue(s1.0, req, 11);
      var s3 := Issue(s2.0, req, 12);
      && s1.1 == Created && s1.0.events[0].status == Scheduled
      && s2.1 == Created && s2.0.events[0].status == SoldOut
      && s3.1 == BadRequest && s3.0 == s2.0
      && TicketCount(s3.0.tickets, 0) == 2
  {
    var req := TicketRequest(0, "ana", "ana@x", 1);
    var db := EmptyEventDb(2, Scheduled);
    assert TicketsOf(db.tickets, 0) == {};
    var s1 := Issue(db, req, 10);
    IssueRespectsCapacity(db, req, 10);
    IssueSoldOut(db, req, 10);
    IssueRespectsCapacity(s1.0, req, 11);
    IssueSoldOut(s1.0, req, 11);
  }

  /** A store with one event of capacity 3 whose single ticket record already holds all 3 seats. */
  function FullByUnitsDb(): Db {
    Db(map[0 := Event("show", "", 0, "hall", 3, 50, Scheduled, [])],
       map[0 := Ticket(0, "a", "a@x", 3, 0, 150, Reserved)],
       map[], 1, 1, 0)
  }

  /**
    The capacity check counts records, not seats: with all 3 seats sold on
    one record, a request for 2 more seats passes (1 + 2 <= 3), and the two
    records then hold 5 seats against a capacity of 3.
   */
  lemma RowCountOversellsSeats()
    ensures var res := Issue(FullByUnitsDb(), TicketRequest(0, "b", "b@x", 2), 0);
      && res.1 == Created
      && 0 in res.0.tickets && 1 in res.0.tickets
      && res.0.tickets[0].event == 0 && res.0.tickets[1].event == 0
      && res.0.tickets[0].quantity + res.0.tickets[1].quantity > res.0.events[0].capacity
  {
    var db := FullByUnitsDb();
    assert TicketsOf(db.tickets, 0) == {0};
  }
}
