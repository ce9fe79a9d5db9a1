/**
  The records of the event-ticketing API: performers (Artista), events
  (Evento) and tickets (Ingresso), the store that holds them keyed by id,
  and the two readings of the performer/event association that the
  handlers are meant to keep in step.
 */
module Records {

  /** Store-assigned identities; every entity kind has its own sequence. */
  type Id = nat

  /** An instant (purchase time, event date) kept opaque. */
  type Timestamp = int

  datatype Option<T> = None | Some(value: T)

  /** The HTTP status a handler answers with, reduced to a tag. */
  datatype Outcome = Created | Ok | NoContent | NotFound | BadRequest

  /** Lifecycle of an event; only SoldOut (ESGOTADO) is set by the handlers themselves. */
  datatype EventStatus = Scheduled | SoldOut | EventCancelled | Completed

  /** Lifecycle of a ticket; Reserved (RESERVADO) is the creation state. */
  datatype TicketStatus = Reserved | Confirmed | TicketCancelled

  /** An event; `artists` is the event side of the many-to-many link. Price is in integer units. */
  datatype Event = Event(
    name: string,
    description: string,
    date: Timestamp,
    venue: string,
    capacity: int,
    price: int,
    status: EventStatus,
    artists: seq<Id>)

  /** A performer; `events` is the performer side of the many-to-many link. */
  datatype Artist = Artist(name: string, genre: string, biography: string, events: seq<Id>)

  /** A ticket record; one record may stand for several seats (`quantity`). */
  datatype Ticket = Ticket(
    event: Id,
    buyerName: string,
    buyerEmail: string,
    quantity: int,
    purchasedAt: Timestamp,
    totalPrice: int,
    status: TicketStatus)

  /** The whole store, with the next id each sequence will hand out. */
  datatype Db = Db(
    events: map<Id, Event>,
    tickets: map<Id, Ticket>,
    artists: map<Id, Artist>,
    nextEvent: Id,
    nextTicket: Id,
    nextArtist: Id)

  /**
    Every stored id, and every id an association list mentions, was handed
    out already: a new record never finds itself pre-linked or overwrites one.
   */
  ghost predicate WellFormed(db: Db) {
    && (forall e :: e in db.events ==> e < db.nextEvent)
    && (forall t :: t in db.tickets ==> t < db.nextTicket)
    && (forall a :: a in db.artists ==> a < db.nextArtist)
    && (forall e, a :: e in db.events && a in db.events[e].artists ==> a < db.nextArtist)
    && (forall a, e :: a in db.artists && e in db.artists[a].events ==> e < db.nextEvent)
  }

  /** The bidirectional invariant: a performer is listed by an event exactly when the event is listed by the performer. */
  ghost predicate Consistent(db: Db) {
    forall e, a :: e in db.events && a in db.artists ==>
      (a in db.events[e].artists <==> e in db.artists[a].events)
  }

  /** The bidirectional invariant counted with multiplicity: both sides list the pair equally often. */
  ghost predicate Balanced(db: Db) {
    forall e, a :: e in db.events && a in db.artists ==>
      multiset(db.events[e].artists)[a] == multiset(db.artists[a].events)[e]
  }

  /**
    Every pair is listed either equally often on both sides or on the event
    side only: a performer never lists an event more, or less, often than the
    event lists it, unless it does not list the event at all.
   */
  ghost predicate EventLed(db: Db) {
    forall e, a :: e in db.events && a in db.artists ==>
      multiset(db.artists[a].events)[e] == 0 || multiset(db.artists[a].events)[e] == multiset(db.events[e].artists)[a]
  }

  /** An event-led store whose sides agree on membership is balanced. */
  lemma EventLedConsistentIsBalanced(db: Db)
    requires EventLed(db) && Consistent(db)
    ensures Balanced(db)
  {
    forall e, a | e in db.events && a in db.artists
      ensures multiset(db.events[e].artists)[a] == multiset(db.artists[a].events)[e]
    {
      assert a in db.events[e].artists <==> e in db.artists[a].events;
      assert a in db.events[e].artists <==> a in multiset(db.events[e].artists);
      assert e in db.artists[a].events <==> e in multiset(db.artists[a].events);
    }
  }

  /** No element is listed twice. */
  ghost predicate NoDup(s: seq<Id>) {
    forall x :: multiset(s)[x] <= 1
  }

  lemma BalancedIsConsistent(db: Db)
    requires Balanced(db)
    ensures Consistent(db)
  {
    forall e, a | e in db.events && a in db.artists
      ensures a in db.events[e].artists <==> e in db.artists[a].events
    {
      assert multiset(db.events[e].artists)[a] == multiset(db.artists[a].events)[e];
      assert a in db.events[e].artists <==> a in multiset(db.events[e].artists);
      assert e in db.artists[a].events <==> e in multiset(db.artists[a].events);
    }
  }

  /** a - b, stopping at zero. */
  function Sub(a: nat, b: nat): nat {
    if a >= b then a - b else 0
  }

  /** The position of the first occurrence of `x` in `s`. */
  function FirstIndex(s: seq<Id>, x: Id): (i: nat)
    requires x in s
    ensures i < |s| && s[i] == x && x !in s[..i]
  {
    if s[0] == x then 0
    else
      var j := FirstIndex(s[1..], x);
      assert s[..j + 1] == [s[0]] + s[1..][..j];
      j + 1
  }

  /**
    java.util.List.remove(Object): drop the first occurrence of `x`, if any;
    the elements before and after it keep their order.
   */
  function RemoveFirst(s: seq<Id>, x: Id): (r: seq<Id>)
    ensures forall y :: multiset(r)[y] == if y == x then Sub(multiset(s)[x], 1) else multiset(s)[y]
    ensures x !in s ==> r == s
    ensures x in s ==> |r| == |s| - 1
    ensures x in s ==> exists i :: 0 <= i < |s| && s[i] == x && x !in s[..i] && r == s[..i] + s[i + 1..]
  {
    if x !in s then s
    else
      var i := FirstIndex(s, x);
      assert s == s[..i] + [x] + s[i + 1..];
      s[..i] + s[i + 1..]
  }
}
