# Event ticketing store: ticket issuance and the performer/event association

This project models the request handlers of an event-ticketing REST API
(`IngressoResource`, `EventoResource`, and the performer insert of
`ArtistaResource`) as one in-memory store. The store holds three maps from id
to record: events (`Evento`), tickets (`Ingresso`) and performers (`Artista`).
Each handler runs in its own transaction, so each handler is one atomic method
of the class `Handlers.Store` and answers with an `Outcome` tag (`Created`,
`Ok`, `NoContent`, `NotFound`, `BadRequest`) in place of an HTTP response.

There are two cores:

- **Ticket issuance** (`IngressoResource.insert`), in module `Ledger`. It checks
  that the event exists. It then rejects the request when the event's existing
  ticket *records* plus the requested quantity exceed `capacidadeMaxima`.
  Otherwise it stores a `Reserved` ticket priced at quantity × unit price. If
  the records have now reached capacity, it sets the event to `SoldOut`
  (`ESGOTADO`).
- **The performer↔event association**, in module `Association`. Each event
  lists its performers (`evento.artistas`) and each performer lists its events
  (`artista.eventos`). The handlers `insert`, `update`, `addArtistas` and
  `removeArtista` edit these two lists by hand, in loops.

Each of these handlers has a specification function on a snapshot `Db` of the
store: `Ledger.Issue`, `Association.InsertEvent`, `Association.UpdateEvent`,
`Association.AddArtists` and `Association.Unlink`. The methods are proved
equal to those functions, with loop invariants where the source loops. The
lemmas then state what the source promises about the functions.

The bidirectional invariant appears in two strengths:
- `Consistent`: a performer is listed by an event iff the event is listed by
  the performer.
- `Balanced`: both sides list the pair equally often.

`Balanced` implies `Consistent`. Every association handler except event insert
preserves `Balanced`. Event insert links only the event side, so it keeps
either invariant exactly when no requested performer exists
(`InsertEventOneSided`).

Every store the handlers reach is also `EventLed`: each pair is listed either
equally often on both sides, or on the event side only. `Store.Valid()`
includes it, so every handler, starting from the empty store, is proved to
keep it. In an `EventLed` store, `Consistent` is the same as `Balanced`
(`EventLedConsistentIsBalanced`). So `addArtistas`, `update`, `removeArtista`
and event delete all preserve `Consistent` in every reachable store, whatever
duplicates the lists hold. `removeArtista` can break `Consistent` only from a
store that is not `EventLed`: `UnlinkWithDuplicatesBreaksConsistent` starts
from one where the event lists the performer twice and the performer lists the
event once, and no sequence of handlers produces that store.

Names: `Event`/`Ticket`/`Artist` stand for `Evento`/`Ingresso`/`Artista`.
`capacity` stands for `capacidadeMaxima` and `price` for `precoIngresso`.
`SoldOut` stands for `ESGOTADO` and `Reserved` for `RESERVADO`. The other status
names (`Scheduled`, `EventCancelled`, `Completed`, `Confirmed`,
`TicketCancelled`) are placeholders for enum constants that the shown source
never names. No handler depends on them.

Where the system's design and its code disagree, the model follows the code:

- The capacity check counts ticket records, including cancelled ones. It does
  not count the seats sold (`RowCountOversellsSeats`).
- The event becomes `SoldOut` when the count is `>=` capacity, from any status,
  and the purchase does not look at the event's status
  (`CancelledEventSellsOut`).
- No status transition is guarded (`UpdateEventStatus`, `UpdateTicketStatus`).
- Event update changes capacity without checking the tickets already sold
  (`UpdateEventCanBreakCapacity`).
- Event insert keeps the association on the event side only.

## Model

| member | source | states |
|---|---|---|
| `Records.BalancedIsConsistent` | src/main/java/org/acme/EventoResource.java:106-108 | equal multiplicity on both sides implies the membership form of the bidirectional invariant |
| `Records.EventLedConsistentIsBalanced` | src/main/java/org/acme/EventoResource.java:95-111 | in a store where every pair is listed alike on both sides or on the event side only, the membership invariant already gives equal multiplicities |
| `Records.RemoveFirst` | src/main/java/org/acme/EventoResource.java:164-165 | `List.remove(Object)`: the first occurrence of the element is removed and the elements before and after it keep their order; its multiplicity drops by one (not below zero), every other is kept, and an absent element leaves the list unchanged |
| `Ledger.TicketCount` | src/main/java/org/acme/IngressoResource.java:63 | the record count of an event is at most the number of tickets, and is zero exactly when no ticket references the event |
| `Ledger.NewTicket` | src/main/java/org/acme/IngressoResource.java:69-78 | the new ticket references the requested event, is Reserved, is stamped with the clock, and costs its quantity times the event's unit price |
| `Ledger.CountAfterAdd` | src/main/java/org/acme/IngressoResource.java:80-83 | persisting a ticket under a fresh id adds one record to its event's count and changes no other count |
| `Ledger.CountAfterRemove` | src/main/java/org/acme/IngressoResource.java:115 | deleting a ticket removes one record from its event's count only |
| `Ledger.CountAfterEdit` | src/main/java/org/acme/IngressoResource.java:98-101 | editing a ticket without moving it to another event changes no count |
| `Ledger.Issue` | src/main/java/org/acme/IngressoResource.java:55-88 | outcome is NotFound iff the event is missing, and BadRequest iff record count + quantity > capacity; on either error nothing changes; on success exactly one ticket id is consumed, performers and every event's performer list are untouched, and the store stays well formed and event-led |
| `Ledger.IssueCreatesOneTicket` | src/main/java/org/acme/IngressoResource.java:69-80 | the new ticket is stored under a fresh id: status Reserved, the requested event, buyer name, email and quantity copied, purchase time = the clock, total = quantity × unit price |
| `Ledger.IssueRespectsCapacity` | src/main/java/org/acme/IngressoResource.java:63-80 | for quantity ≥ 1, a successful purchase raises the event's record count by exactly one, to at most capacity; other events' counts are unchanged |
| `Ledger.IssueSoldOut` | src/main/java/org/acme/IngressoResource.java:83-85 | after success the event's status is SoldOut iff old count + 1 ≥ capacity, otherwise it is unchanged; no other field or event changes |
| `Ledger.IssueKeepsWithinCapacity` | src/main/java/org/acme/IngressoResource.java:63-85 | purchases of at least one seat preserve "no event has more records than capacity" |
| `Ledger.ZeroQuantityOverfills` | src/main/java/org/acme/IngressoResource.java:55-66 | without the validation that rejects quantity 0, an event whose one record fills its capacity of 1 accepts a zero-seat ticket and ends with 2 records against a capacity of 1 |
| `Ledger.CancelledEventSellsOut` | src/main/java/org/acme/IngressoResource.java:57-85 | a cancelled event still sells, and the filling sale overwrites its status with SoldOut |
| `Ledger.TwoSeatsSellOut` | src/main/java/org/acme/IngressoResource.java:55-88 | on capacity 2, three one-seat purchases give Created (still Scheduled), Created (now SoldOut), then BadRequest with no change; two records remain |
| `Ledger.RowCountOversellsSeats` | src/main/java/org/acme/IngressoResource.java:63-64 | counting records instead of seats admits 5 seats on a capacity of 3 |
| `Association.Link` | src/main/java/org/acme/EventoResource.java:144-145 | linking changes only the two association lists: no key set, ticket or id counter, and none of the event's or the performer's other fields |
| `Association.LinkKeepsWellFormed` | src/main/java/org/acme/EventoResource.java:144-145 | linking an existing pair keeps every listed id issued |
| `Association.LinkKeepsBalanced` | src/main/java/org/acme/EventoResource.java:107-108 | appending on both sides keeps the sides balanced |
| `Association.LinkKeepsConsistent` | src/main/java/org/acme/EventoResource.java:144-145 | appending on both sides keeps the sides consistent |
| `Association.AddStep` | src/main/java/org/acme/EventoResource.java:142-146 | one pass of the addArtistas loop changes no key set, ticket or id counter |
| `Association.AddArtists` | src/main/java/org/acme/EventoResource.java:141-147 | the addArtistas loop changes no key set, ticket or id counter |
| `Association.AddArtistsCounts` | src/main/java/org/acme/EventoResource.java:141-147 | counted by multiplicity, the event's list keeps its entries and gains each requested existing performer not yet listed exactly once, however often it is requested; unknown ids are skipped |
| `Association.AddArtistsAppends` | src/main/java/org/acme/EventoResource.java:141-147 | the event's old list stays as a prefix, followed by the requested existing performers it did not list, each once, in order of first mention |
| `Association.AddArtistsLinksPerformers` | src/main/java/org/acme/EventoResource.java:141-147 | each requested existing performer the event did not list gets the event appended to its own list exactly once; every other performer's list is unchanged |
| `Association.AddArtistsKeepsEventLed` | src/main/java/org/acme/EventoResource.java:141-147 | addArtistas keeps every pair listed alike on both sides or on the event side only |
| `Association.AddArtistsKeepsStore` | src/main/java/org/acme/EventoResource.java:141-147 | on a reachable store, addArtistas keeps it well formed and event-led, and keeps whichever of Consistent and Balanced held |
| `Association.AddArtistsFrame` | src/main/java/org/acme/EventoResource.java:141-147 | addArtistas leaves other events unchanged, keeps the event's own fields, and keeps every performer's name, genre and biography |
| `Association.AddArtistsKeepsNoDup` | src/main/java/org/acme/EventoResource.java:143 | addArtistas never creates a duplicate in the event's list |
| `Association.AddArtistsCovers` | src/main/java/org/acme/EventoResource.java:141-147 | afterwards every requested existing performer is listed |
| `Association.AddArtistsNoop` | src/main/java/org/acme/EventoResource.java:143 | if every requested existing performer is already listed, nothing changes |
| `Association.AddArtistsIdempotent` | src/main/java/org/acme/EventoResource.java:141-147 | running addArtistas twice with the same ids equals running it once |
| `Association.AddArtistsKeepsInvariants` | src/main/java/org/acme/EventoResource.java:141-147 | addArtistas preserves well-formedness, Consistent and Balanced |
| `Association.Unlink` | src/main/java/org/acme/EventoResource.java:164-165 | removeArtista changes only the event's performer list and the performer's event list: no key set, ticket, counter or other field |
| `Association.UnlinkEffect` | src/main/java/org/acme/EventoResource.java:164-165 | removeArtista lowers the pair's multiplicity by one on each side (not below zero); every other entry, event, performer, the two records' own fields, the tickets and the counters stay; a no-op for an unlinked pair |
| `Association.UnlinkKeepsWellFormed` | src/main/java/org/acme/EventoResource.java:164-165 | removal keeps every listed id issued |
| `Association.UnlinkKeepsBalanced` | src/main/java/org/acme/EventoResource.java:164-165 | removeArtista preserves Balanced |
| `Association.UnlinkKeepsConsistent` | src/main/java/org/acme/EventoResource.java:164-165 | with duplicate-free lists, the pair is unlinked on both sides and Consistent is preserved |
| `Association.UnlinkWithDuplicatesBreaksConsistent` | src/main/java/org/acme/EventoResource.java:164-165 | from a consistent store that is not event-led (the event lists the performer twice, the performer lists it once), removal leaves the event listing a performer that no longer lists it |
| `Association.UnlinkKeepsEventLed` | src/main/java/org/acme/EventoResource.java:164-165 | removeArtista keeps every pair listed alike on both sides or on the event side only |
| `Association.UnlinkKeepsConsistentWhenEventLed` | src/main/java/org/acme/EventoResource.java:164-165 | in an event-led store removeArtista keeps Consistent, whatever duplicates the lists hold |
| `Association.UnlinkKeepsStore` | src/main/java/org/acme/EventoResource.java:156-168 | on a reachable store, removeArtista keeps it well formed and event-led, and keeps whichever of Consistent and Balanced held |
| `Association.Requested` | src/main/java/org/acme/EventoResource.java:58-65 | the filtered list names only existing performers |
| `Association.RequestedCounts` | src/main/java/org/acme/EventoResource.java:58-65 | each existing performer appears as often as the request names it; missing ones never appear |
| `Association.RequestedMembers` | src/main/java/org/acme/EventoResource.java:58-65 | a performer is in the filtered list iff it exists and the request names it |
| `Association.InitialArtists` | src/main/java/org/acme/EventoResource.java:56-69 | a new event starts with exactly the requested performers that exist; none for a missing list |
| `Association.NewEvent` | src/main/java/org/acme/EventoResource.java:66-71 | the event that insert stores carries the seven request fields and exactly the given performer list |
| `Association.InsertEvent` | src/main/java/org/acme/EventoResource.java:54-73 | insert adds exactly one event under the next id, holding the seven request fields and the filtered performer list in request order, duplicates included; tickets, performers and other events are untouched |
| `Association.InsertEventLinks` | src/main/java/org/acme/EventoResource.java:56-71 | the new event lists exactly the requested existing performers, and no performer lists it (one-sided) |
| `Association.InsertEventOneSided` | src/main/java/org/acme/EventoResource.java:56-71 | from a balanced store, insert keeps Consistent (and Balanced) iff no requested performer exists |
| `Association.InsertEventKeepsEventLed` | src/main/java/org/acme/EventoResource.java:54-73 | insert keeps a well-formed store event-led, since no performer lists the new event |
| `Association.CopyFields` | src/main/java/org/acme/EventoResource.java:84-90 | update takes all seven scalar fields from the request and keeps the event's performer list |
| `Association.StripStep` | src/main/java/org/acme/EventoResource.java:97 | one strip pass keeps the performer key set |
| `Association.Strip` | src/main/java/org/acme/EventoResource.java:96-98 | the strip loop keeps the performer key set |
| `Association.StripCounts` | src/main/java/org/acme/EventoResource.java:96-98 | each performer loses the event as often as the old list names it (down to zero); nothing else changes |
| `Association.LinkStep` | src/main/java/org/acme/EventoResource.java:103-110 | one re-link pass changes no key set, ticket or id counter |
| `Association.LinkAll` | src/main/java/org/acme/EventoResource.java:102-111 | the re-link loop changes no key set, ticket or id counter |
| `Association.LinkAllEffect` | src/main/java/org/acme/EventoResource.java:102-111 | re-linking appends the filtered request, in order, to the event's list and touches no other event or performer field |
| `Association.LinkStepPerformer` | src/main/java/org/acme/EventoResource.java:103-110 | one re-link pass appends the event to the named existing performer's list and to no other |
| `Association.LinkAllLinksPerformer` | src/main/java/org/acme/EventoResource.java:102-111 | the re-link loop appends the event to a performer's list once per request entry naming it, duplicates included |
| `Association.LinkAllLinksPerformers` | src/main/java/org/acme/EventoResource.java:102-111 | the same for every performer at once; a performer the request does not name keeps its list |
| `Association.LinkAllKeepsInvariants` | src/main/java/org/acme/EventoResource.java:102-111 | re-linking preserves well-formedness and Balanced |
| `Association.Cleared` | src/main/java/org/acme/EventoResource.java:93-99 | stripping and clearing keep both key sets |
| `Association.ClearedKeepsWellFormed` | src/main/java/org/acme/EventoResource.java:96-99 | stripping never adds an id to a list |
| `Association.ClearedKeepsBalanced` | src/main/java/org/acme/EventoResource.java:96-99 | from a balanced store, stripping removes every listing of the event, so the cleared store is balanced |
| `Association.UpdateEvent` | src/main/java/org/acme/EventoResource.java:79-116 | update changes no key set, ticket or id counter |
| `Association.UpdateEventFields` | src/main/java/org/acme/EventoResource.java:84-111 | update copies exactly the seven scalar fields; a null performer list leaves all links untouched; otherwise the event lists exactly the filtered request, in order |
| `Association.UpdateEventLinksPerformers` | src/main/java/org/acme/EventoResource.java:93-111 | with a performer list, each performer loses the event as often as the old list named it (down to zero), then gains it once per request entry naming it; its other entries stay |
| `Association.UpdateEventKeepsInvariants` | src/main/java/org/acme/EventoResource.java:93-111 | update preserves well-formedness and Balanced |
| `Association.UpdateEventKeepsEventLed` | src/main/java/org/acme/EventoResource.java:93-111 | update keeps every pair listed alike on both sides or on the event side only |
| `Association.UpdateEventKeepsConsistent` | src/main/java/org/acme/EventoResource.java:93-111 | in an event-led store update keeps Consistent |
| `Association.UpdateEventKeepsStore` | src/main/java/org/acme/EventoResource.java:79-116 | on a reachable store, update keeps it well formed and event-led, and keeps whichever of Consistent and Balanced held |
| `Association.UpdateEventCanBreakCapacity` | src/main/java/org/acme/EventoResource.java:88 | update can set the capacity below the record count, breaking "within capacity" |
| `Handlers.Store.GetTicket` | src/main/java/org/acme/IngressoResource.java:45-50 | Ok with the ticket iff the id is stored, else NotFound |
| `Handlers.Store.InsertTicket` | src/main/java/org/acme/IngressoResource.java:55-88 | the new state and outcome are those of `Ledger.Issue`; the returned id is the fresh ticket id on success |
| `Handlers.Store.UpdateTicket` | src/main/java/org/acme/IngressoResource.java:93-104 | only buyer name, email, quantity and status are overwritten; no capacity check; no count moves; a missing id gives NotFound and no change |
| `Handlers.Store.UpdateTicketStatus` | src/main/java/org/acme/IngressoResource.java:123-134 | any status replaces any other; a missing id gives NotFound and no change |
| `Handlers.Store.DeleteTicket` | src/main/java/org/acme/IngressoResource.java:110-117 | exactly that ticket is removed (NoContent); events, including a SoldOut status, and associations are untouched; within-capacity is preserved |
| `Handlers.Store.InsertEvent` | src/main/java/org/acme/EventoResource.java:54-73 | the filter loop yields the state of `Association.InsertEvent`, under the next event id |
| `Handlers.Store.UpdateEvent` | src/main/java/org/acme/EventoResource.java:79-116 | NotFound with no change for a missing id; otherwise the state of `Association.UpdateEvent`; Consistent and Balanced are preserved |
| `Handlers.Store.Update` | src/main/java/org/acme/EventoResource.java:84-111 | the field copy, strip, clear and re-link yield `Association.UpdateEvent` |
| `Handlers.Store.StripFromArtists` | src/main/java/org/acme/EventoResource.java:96-98 | the strip loop changes only the performer map, as `Association.Strip` |
| `Handlers.Store.LinkRequested` | src/main/java/org/acme/EventoResource.java:102-111 | the re-link loop yields `Association.LinkAll` |
| `Handlers.Store.AddArtists` | src/main/java/org/acme/EventoResource.java:135-150 | NotFound with no change for a missing event; otherwise the state of `Association.AddArtists`; Consistent and Balanced are preserved |
| `Handlers.Store.LinkMissing` | src/main/java/org/acme/EventoResource.java:141-147 | the addArtistas loop yields `Association.AddArtists` |
| `Handlers.Store.RemoveArtist` | src/main/java/org/acme/EventoResource.java:156-168 | NotFound with no change if either record is missing; otherwise `Association.Unlink`; Consistent and Balanced are preserved |
| `Handlers.Store.UpdateEventStatus` | src/main/java/org/acme/EventoResource.java:206-217 | any status replaces any other; a missing id gives NotFound and no change |
| `Handlers.Store.DeleteEvent` | src/main/java/org/acme/EventoResource.java:122-129 | only the event map loses the id (NoContent); Consistent and Balanced are preserved; a missing id gives NotFound and no change |
| `Handlers.Store.TicketsOfEvent` | src/main/java/org/acme/EventoResource.java:189-200 | returns exactly the tickets that reference the id; NoContent iff there are none; never NotFound |
| `Handlers.Store.InsertArtist` | src/main/java/org/acme/ArtistaResource.java:52-55 | a new performer with no events is stored under the next performer id; Balanced is preserved |
| `Handlers.SoldOutScenario` | src/main/java/org/acme/IngressoResource.java:63-85 | capacity 2, three one-seat purchases: Created, Created, BadRequest; statuses Scheduled, SoldOut, SoldOut; two records remain |

## Left out

- HTTP and JAX-RS plumbing (`Response`, `URI`, `UriInfo`, the representation mappers, OpenAPI annotations): every handler returns an `Outcome` tag instead.
- Panache/JPA persistence: the store is three maps plus one id counter per entity kind. Event delete removes only the event record. Its tickets and the performers' lists keep their references, because cascade and orphan rules live in entity mappings that are not part of this model.
- Concurrency and transaction isolation: each method is atomic. The overselling race between the count and the persist is not modelled.
- `LocalDateTime.now()`: the purchase time is the `now` parameter.
- Price arithmetic: prices are integers (e.g. cents). Floating-point rounding and Java integer overflow in `quantidade * precoIngresso` and in capacity sums are not modelled.
- Bean Validation (`@Valid`): `quantity >= 1` is a hypothesis of the lemmas that need it, not a check in the handler. `ZeroQuantityOverfills` shows what it guards against.
- A null `artistaIds` list in `addArtistas`, and null entries in it, are not modelled; ids are plain naturals.
- Null statuses: a missing `?status=` query parameter (`IngressoResource.updateStatus`, `EventoResource.updateStatus`) or a body without a status (ticket and event update) stores null. The status types are closed enumerations, so a null status cannot be expressed.
- Null elements in the performer list of event insert or update: `artista.id` on a null element throws a `NullPointerException`, which rolls the request back. The model's list holds `Option<Id>` entries, where `None` is a performer whose id is null, so a null element itself cannot be expressed.
- The JPA mapping of the association: `evento.artistas` and `artista.eventos` are modelled as two independent stored lists that carry over between requests. The entity mapping is not part of this model. If it is a bidirectional `@ManyToMany`, only the owning side is written to the join table and the other side is re-read from it after commit. The one-sided insert and the unbalanced states would then describe the in-transaction object graph, not the stored association.
- A performer supplied in an insert request is created with an empty event list, because its mapping is not shown.
- `ArtistaResource` apart from `insert` (get, update, delete, list): plain CRUD with no logic beyond what the store already shows.
- The list endpoints `getAll`, `getById` for events, `getArtistasByEvento` and `getEventosByArtista`: read-only mapping with no invariant.
- Entity identity: `List.contains` and `List.remove` compare entities; the model compares ids, assuming one managed instance per id in a transaction.
