/**
  The performer/event many-to-many association of EventoResource, kept by
  hand on both sides: each event lists its performers and each performer
  lists its events. Each handler's effect on the store is a function here;
  the loops of the handlers are proved against these functions.
 */
module Association {
  import opened Records
  import Ledger

  /** An event as a request body carries it (Evento); `artists` is the nullable list of performers with nullable ids. */
  datatype EventRequest = EventRequest(
    name: string,
    description: string,
    date: Timestamp,
    venue: string,
    capacity: int,
    price: int,
    status: EventStatus,
    artists: Option<seq<Option<Id>>>)

  /** List `a` on event `e` and `e` on performer `a`, appending on both sides. */
  function Link(db: Db, e: Id, a: Id): (r: Db)
    requires e in db.events && a in db.artists
    ensures r.events.Keys == db.events.Keys && r.artists.Keys == db.artists.Keys
    ensures r.tickets == db.tickets
    ensures r.nextEvent == db.nextEvent && r.nextTicket == db.nextTicket && r.nextArtist == db.nextArtist
    ensures r.events[e] == db.events[e].(artists := r.events[e].artists)
    ensures r.artists[a] == db.artists[a].(events := r.artists[a].events)
  {
    db.(events := db.events[e := db.events[e].(artists := db.events[e].artists + [a])],
        artists := db.artists[a := db.artists[a].(events := db.artists[a].events + [e])])
  }

  lemma LinkKeepsWellFormed(db: Db, e: Id, a: Id)
    requires e in db.events && a in db.artists && WellFormed(db)
    ensures WellFormed(Link(db, e, a))
  {
  }

  /** Linking adds one to the multiplicity on both sides, so it keeps both sides balanced. */
  lemma LinkKeepsBalanced(db: Db, e: Id, a: Id)
    requires e in db.events && a in db.artists && Balanced(db)
    ensures Balanced(Link(db, e, a))
  {
    var r := Link(db, e, a);
    forall e2, a2 | e2 in r.events && a2 in r.artists
      ensures multiset(r.events[e2].artists)[a2] == multiset(r.artists[a2].events)[e2]
    {
      assert multiset(db.events[e2].artists)[a2] == multiset(db.artists[a2].events)[e2];
      var ev := if e2 == e then db.events[e].artists + [a] else db.events[e2].artists;
      var ar := if a2 == a then db.artists[a].events + [e] else db.artists[a2].events;
      assert r.events[e2].artists == ev && r.artists[a2].events == ar;
    }
  }

  /** Linking makes the pair listed on both sides and leaves every other pair as it was, so it keeps the sides consistent. */
  lemma LinkKeepsConsistent(db: Db, e: Id, a: Id)
    requires e in db.events && a in db.artists && Consistent(db)
    ensures Consistent(Link(db, e, a))
  {
    var r := Link(db, e, a);
    forall e2, a2 | e2 in r.events && a2 in r.artists
      ensures a2 in r.events[e2].artists <==> e2 in r.artists[a2].events
    {
      assert a2 in db.events[e2].artists <==> e2 in db.artists[a2].events;
    }
  }

  // ---------------------------------------------------------------------------
  // PUT /eventos/{id}/artistas (addArtistas)

  /** One pass of the addArtistas loop: an existing performer not yet listed by the event is linked on both sides. */
  function AddStep(db: Db, e: Id, a: Id): (r: Db)
    requires e in db.events
    ensures r.events.Keys == db.events.Keys && r.artists.Keys == db.artists.Keys
    ensures r.tickets == db.tickets
    ensures r.nextEvent == db.nextEvent && r.nextTicket == db.nextTicket && r.nextArtist == db.nextArtist
  {
    if a in db.artists && a !in db.events[e].artists then Link(db, e, a) else db
  }

  /** The whole addArtistas loop over `ids`, in request order. */
  function AddArtists(db: Db, e: Id, ids: seq<Id>): (r: Db)
    requires e in db.events
    ensures r.events.Keys == db.events.Keys && r.artists.Keys == db.artists.Keys
    ensures r.tickets == db.tickets
    ensures r.nextEvent == db.nextEvent && r.nextTicket == db.nextTicket && r.nextArtist == db.nextArtist
    decreases |ids|
  {
    if ids == [] then db
    else AddStep(AddArtists(db, e, ids[..|ids| - 1]), e, ids[|ids| - 1])
  }

  /**
    addArtistas links, once, every requested id that names an existing
    performer not already listed: the event's list keeps its old entries and
    gains each such performer exactly once, whatever the request repeats;
    unknown ids are skipped.
   */
  lemma {:induction false} AddArtistsCounts(db: Db, e: Id, ids: seq<Id>)
    requires e in db.events
    ensures forall a ::
              multiset(AddArtists(db, e, ids).events[e].artists)[a] ==
              (if a in db.events[e].artists then multiset(db.events[e].artists)[a]
               else if a in ids && a in db.artists then 1 else 0)
    decreases |ids|
  {
    if ids != [] {
      var init := ids[..|ids| - 1];
      AddArtistsCounts(db, e, init);
      assert ids == init + [ids[|ids| - 1]];
    }
  }

  /**
    addArtistas edits only association lists: other events are unchanged, the
    event keeps its own fields, and every performer keeps its name, genre and
    biography.
   */
  lemma {:induction false} AddArtistsFrame(db: Db, e: Id, ids: seq<Id>)
    requires e in db.events
    ensures forall e2 :: e2 in db.events && e2 != e ==> AddArtists(db, e, ids).events[e2] == db.events[e2]
    ensures forall a :: a in db.artists ==>
      AddArtists(db, e, ids).artists[a] == db.artists[a].(events := AddArtists(db, e, ids).artists[a].events)
    ensures AddArtists(db, e, ids).events[e] == db.events[e].(artists := AddArtists(db, e, ids).events[e].artists)
    decreases |ids|
  {
    if ids != [] {
      AddArtistsFrame(db, e, ids[..|ids| - 1]);
    }
  }

  /** The elements of `s` without repeats, each at the place of its first occurrence. */
  function Distinct(s: seq<Id>): (r: seq<Id>)
    ensures forall x :: x in r <==> x in s
    decreases |s|
  {
    if s == [] then []
    else
      var init := s[..|s| - 1];
      assert s == init + [s[|s| - 1]];
      Distinct(init) + (if s[|s| - 1] in init then [] else [s[|s| - 1]])
  }

  /** The elements of `s`, in order, that name an existing performer not in `listed`. */
  function Unlisted(artists: map<Id, Artist>, listed: seq<Id>, s: seq<Id>): (r: seq<Id>)
    ensures forall x :: x in r <==> x in s && x in artists && x !in listed
    decreases |s|
  {
    if s == [] then []
    else
      var init := s[..|s| - 1];
      assert s == init + [s[|s| - 1]];
      Unlisted(artists, listed, init) + (if s[|s| - 1] in artists && s[|s| - 1] !in listed then [s[|s| - 1]] else [])
  }

  /** Extending the request by one id extends the admitted performers by that id, if it is new, exists and is not listed. */
  lemma UnlistedDistinctStep(artists: map<Id, Artist>, listed: seq<Id>, ids: seq<Id>)
    requires ids != []
    ensures var init, x := ids[..|ids| - 1], ids[|ids| - 1];
      Unlisted(artists, listed, Distinct(ids)) ==
      Unlisted(artists, listed, Distinct(init)) + (if x !in init && x in artists && x !in listed then [x] else [])
  {
    var init, x := ids[..|ids| - 1], ids[|ids| - 1];
    var d := Distinct(init);
    if x in init {
      assert Distinct(ids) == d;
    } else {
      assert Distinct(ids) == d + [x];
      assert (d + [x])[..|d|] == d;
    }
  }

  /** One addArtistas pass appends the id to the event's list exactly when it names an existing performer not yet listed. */
  lemma AddStepAppends(db: Db, e: Id, a: Id)
    requires e in db.events
    ensures AddStep(db, e, a).events[e].artists ==
            db.events[e].artists + (if a in db.artists && a !in db.events[e].artists then [a] else [])
  {
  }

  /**
    addArtistas appends to the event's list: the old list stays as a prefix
    and is followed by the requested existing performers it did not list,
    each once, in the order of their first mention in the request.
   */
  lemma {:induction false} AddArtistsAppends(db: Db, e: Id, ids: seq<Id>)
    requires e in db.events
    ensures AddArtists(db, e, ids).events[e].artists ==
            db.events[e].artists + Unlisted(db.artists, db.events[e].artists, Distinct(ids))
    decreases |ids|
  {
    if ids != [] {
      AddArtistsAppends(db, e, ids[..|ids| - 1]);
      AddArtistsAppendsStep(db, e, ids);
    }
  }

  /** The inductive step of AddArtistsAppends: one more requested id. */
  lemma AddArtistsAppendsStep(db: Db, e: Id, ids: seq<Id>)
    requires e in db.events && ids != []
    requires AddArtists(db, e, ids[..|ids| - 1]).events[e].artists ==
             db.events[e].artists + Unlisted(db.artists, db.events[e].artists, Distinct(ids[..|ids| - 1]))
    ensures AddArtists(db, e, ids).events[e].artists ==
            db.events[e].artists + Unlisted(db.artists, db.events[e].artists, Distinct(ids))
  {
    var init, x := ids[..|ids| - 1], ids[|ids| - 1];
    var prev := AddArtists(db, e, init);
    assert AddArtists(db, e, ids) == AddStep(prev, e, x);
    AddStepAppends(prev, e, x);
    UnlistedAppend(db.artists, db.events[e].artists, ids, prev.events[e].artists);
  }

  /** On lists alone: appending the next requested id when it is new keeps the list equal to the old list plus the admitted ids. */
  lemma UnlistedAppend(artists: map<Id, Artist>, listed: seq<Id>, ids: seq<Id>, p: seq<Id>)
    requires ids != []
    requires p == listed + Unlisted(artists, listed, Distinct(ids[..|ids| - 1]))
    ensures var x := ids[|ids| - 1];
      p + (if x in artists && x !in p then [x] else []) == listed + Unlisted(artists, listed, Distinct(ids))
  {
    var init, x := ids[..|ids| - 1], ids[|ids| - 1];
    var u := Unlisted(artists, listed, Distinct(init));
    UnlistedDistinctStep(artists, listed, ids);
    if x in artists && x !in listed && x !in init {
      assert x !in Distinct(init);
      AppendFresh(listed, u, p, x);
    } else {
      assert x in artists && x !in listed ==> x in Distinct(init);
      assert x in artists ==> x in p;
    }
  }

  /** Appending an id that neither part of `p` holds. */
  lemma AppendFresh(listed: seq<Id>, u: seq<Id>, p: seq<Id>, x: Id)
    requires p == listed + u && x !in listed && x !in u
    ensures x !in p && p + [x] == listed + (u + [x])
  {
  }

  /**
    addArtistas appends the event to the list of each requested existing
    performer the event did not list, once however often it is requested;
    every other performer's list is unchanged.
   */
  lemma {:induction false} AddArtistsLinksPerformers(db: Db, e: Id, ids: seq<Id>)
    requires e in db.events
    ensures forall a :: a in db.artists ==>
              AddArtists(db, e, ids).artists[a].events ==
              db.artists[a].events + (if a in ids && a !in db.events[e].artists then [e] else [])
    decreases |ids|
  {
    if ids != [] {
      var init, x := ids[..|ids| - 1], ids[|ids| - 1];
      AddArtistsLinksPerformers(db, e, init);
      AddArtistsAppends(db, e, init);
      assert ids == init + [x];
      var prev := AddArtists(db, e, init);
      if x in prev.artists && x !in prev.events[e].artists {
        assert x !in init;
      }
    }
  }

  /** addArtistas keeps every pair listed equally often on both sides or on the event side only. */
  lemma AddArtistsKeepsEventLed(db: Db, e: Id, ids: seq<Id>)
    requires e in db.events && EventLed(db)
    ensures EventLed(AddArtists(db, e, ids))
  {
    var r := AddArtists(db, e, ids);
    AddArtistsCounts(db, e, ids);
    AddArtistsFrame(db, e, ids);
    AddArtistsLinksPerformers(db, e, ids);
    forall e2, a | e2 in r.events && a in r.artists
      ensures multiset(r.artists[a].events)[e2] == 0 ||
              multiset(r.artists[a].events)[e2] == multiset(r.events[e2].artists)[a]
    {
      var before := multiset(db.artists[a].events)[e2];
      assert before == 0 || before == multiset(db.events[e2].artists)[a];
      var linked := a in ids && a !in db.events[e].artists;
      assert r.artists[a].events == db.artists[a].events + (if linked then [e] else []);
      if e2 != e {
        assert r.events[e2] == db.events[e2];
        assert multiset(r.artists[a].events)[e2] == before;
      } else if a in db.events[e].artists {
        assert multiset(r.artists[a].events)[e] == before;
      } else {
        assert a !in multiset(db.events[e].artists);
        assert before == 0;
      }
    }
  }

  /** addArtistas keeps a store the handlers can reach reachable, and keeps whichever of Consistent and Balanced held. */
  lemma AddArtistsKeepsStore(db: Db, e: Id, ids: seq<Id>)
    requires e in db.events && WellFormed(db) && EventLed(db)
    ensures WellFormed(AddArtists(db, e, ids)) && EventLed(AddArtists(db, e, ids))
    ensures Balanced(db) ==> Balanced(AddArtists(db, e, ids))
    ensures Consistent(db) ==> Consistent(AddArtists(db, e, ids))
  {
    AddArtistsKeepsInvariants(db, e, ids);
    AddArtistsKeepsEventLed(db, e, ids);
  }

  /** addArtistas never creates a duplicate in the event's list. */
  lemma AddArtistsKeepsNoDup(db: Db, e: Id, ids: seq<Id>)
    requires e in db.events && NoDup(db.events[e].artists)
    ensures NoDup(AddArtists(db, e, ids).events[e].artists)
  {
    AddArtistsCounts(db, e, ids);
  }

  /** After addArtistas every requested id that names an existing performer is listed by the event. */
  lemma AddArtistsCovers(db: Db, e: Id, ids: seq<Id>)
    requires e in db.events
    ensures forall a :: a in ids && a in db.artists ==> a in AddArtists(db, e, ids).events[e].artists
  {
    AddArtistsCounts(db, e, ids);
    forall a | a in ids && a in db.artists
      ensures a in AddArtists(db, e, ids).events[e].artists
    {
      assert multiset(AddArtists(db, e, ids).events[e].artists)[a] >= 1;
    }
  }

  /** When every requested existing performer is already listed, addArtistas changes nothing. */
  lemma {:induction false} AddArtistsNoop(db: Db, e: Id, ids: seq<Id>)
    requires e in db.events
    requires forall a :: a in ids && a in db.artists ==> a in db.events[e].artists
    ensures AddArtists(db, e, ids) == db
    decreases |ids|
  {
    if ids != [] {
      var init := ids[..|ids| - 1];
      assert forall a :: a in init ==> a in ids;
      AddArtistsNoop(db, e, init);
    }
  }

  /** addArtistas is idempotent: repeating a request with the same ids changes nothing more. */
  lemma AddArtistsIdempotent(db: Db, e: Id, ids: seq<Id>)
    requires e in db.events
    ensures AddArtists(AddArtists(db, e, ids), e, ids) == AddArtists(db, e, ids)
  {
    AddArtistsCovers(db, e, ids);
    AddArtistsNoop(AddArtists(db, e, ids), e, ids);
  }

  /** addArtistas keeps the store well formed and keeps both sides of the association consistent. */
  lemma {:induction false} AddArtistsKeepsInvariants(db: Db, e: Id, ids: seq<Id>)
    requires e in db.events
    ensures WellFormed(db) ==> WellFormed(AddArtists(db, e, ids))
    ensures Consistent(db) ==> Consistent(AddArtists(db, e, ids))
    ensures Balanced(db) ==> Balanced(AddArtists(db, e, ids))
    decreases |ids|
  {
    if ids != [] {
      var prev := AddArtists(db, e, ids[..|ids| - 1]);
      AddArtistsKeepsInvariants(db, e, ids[..|ids| - 1]);
      var a := ids[|ids| - 1];
      if a in prev.artists && a !in prev.events[e].artists {
        if WellFormed(prev) { LinkKeepsWellFormed(prev, e, a); }
        if Consistent(prev) { LinkKeepsConsistent(prev, e, a); }
        if Balanced(prev) { LinkKeepsBalanced(prev, e, a); }
      }
    }
  }

  // ---------------------------------------------------------------------------
  // DELETE /eventos/{id}/artistas/{artistaId} (removeArtista)

  /** removeArtista on an existing event and performer: one occurrence of each is removed from the other's list. */
  function Unlink(db: Db, e: Id, a: Id): (r: Db)
    requires e in db.events && a in db.artists
    ensures r.events.Keys == db.events.Keys && r.artists.Keys == db.artists.Keys
    ensures r.tickets == db.tickets
    ensures r.nextEvent == db.nextEvent && r.nextTicket == db.nextTicket && r.nextArtist == db.nextArtist
    ensures r.events[e] == db.events[e].(artists := r.events[e].artists)
    ensures r.artists[a] == db.artists[a].(events := r.artists[a].events)
  {
    db.(events := db.events[e := db.events[e].(artists := RemoveFirst(db.events[e].artists, a))],
        artists := db.artists[a := db.artists[a].(events := RemoveFirst(db.artists[a].events, e))])
  }

  /**
    Unlinking takes one off the pair's multiplicity on each side (none if it
    was not listed) and touches no other pair, other event or other performer;
    the event's and the performer's own fields, the tickets and the id
    counters stay; when neither side lists the other it is a no-op.
   */
  lemma UnlinkEffect(db: Db, e: Id, a: Id)
    requires e in db.events && a in db.artists
    ensures var r := Unlink(db, e, a);
      && r.events.Keys == db.events.Keys && r.artists.Keys == db.artists.Keys && r.tickets == db.tickets
      && r.nextEvent == db.nextEvent && r.nextTicket == db.nextTicket && r.nextArtist == db.nextArtist
      && r.events[e] == db.events[e].(artists := r.events[e].artists)
      && r.artists[a] == db.artists[a].(events := r.artists[a].events)
      && multiset(r.events[e].artists)[a] == Sub(multiset(db.events[e].artists)[a], 1)
      && multiset(r.artists[a].events)[e] == Sub(multiset(db.artists[a].events)[e], 1)
      && (forall a2 :: a2 != a ==> multiset(r.events[e].artists)[a2] == multiset(db.events[e].artists)[a2])
      && (forall e2 :: e2 != e ==> multiset(r.artists[a].events)[e2] == multiset(db.artists[a].events)[e2])
      && (forall e2 :: e2 in db.events && e2 != e ==> r.events[e2] == db.events[e2])
      && (forall a2 :: a2 in db.artists && a2 != a ==> r.artists[a2] == db.artists[a2])
    ensures a !in db.events[e].artists && e !in db.artists[a].events ==> Unlink(db, e, a) == db
  {
  }

  lemma UnlinkKeepsWellFormed(db: Db, e: Id, a: Id)
    requires e in db.events && a in db.artists && WellFormed(db)
    ensures WellFormed(Unlink(db, e, a))
  {
    var r := Unlink(db, e, a);
    assert forall x :: x in r.events[e].artists ==> x in db.events[e].artists by {
      forall x | x in r.events[e].artists ensures x in db.events[e].artists {
        assert x in multiset(r.events[e].artists);
      }
    }
    assert forall x :: x in r.artists[a].events ==> x in db.artists[a].events by {
      forall x | x in r.artists[a].events ensures x in db.artists[a].events {
        assert x in multiset(r.artists[a].events);
      }
    }
  }

  /** removeArtista keeps the two sides balanced. */
  lemma UnlinkKeepsBalanced(db: Db, e: Id, a: Id)
    requires e in db.events && a in db.artists && Balanced(db)
    ensures Balanced(Unlink(db, e, a))
  {
    var r := Unlink(db, e, a);
    UnlinkEffect(db, e, a);
    forall e2, a2 | e2 in r.events && a2 in r.artists
      ensures multiset(r.events[e2].artists)[a2] == multiset(r.artists[a2].events)[e2]
    {
      assert multiset(db.events[e2].artists)[a2] == multiset(db.artists[a2].events)[e2];
      if e2 != e {
        assert r.events[e2] == db.events[e2];
      }
      if a2 != a {
        assert r.artists[a2] == db.artists[a2];
      }
    }
  }

  /**
    When both lists are free of duplicates, removeArtista unlinks the pair on
    both sides and keeps the two sides consistent.
   */
  lemma UnlinkKeepsConsistent(db: Db, e: Id, a: Id)
    requires e in db.events && a in db.artists && Consistent(db)
    requires NoDup(db.events[e].artists) && NoDup(db.artists[a].events)
    ensures a !in Unlink(db, e, a).events[e].artists && e !in Unlink(db, e, a).artists[a].events
    ensures Consistent(Unlink(db, e, a))
  {
    var r := Unlink(db, e, a);
    UnlinkEffect(db, e, a);
    assert multiset(db.events[e].artists)[a] <= 1 && multiset(db.artists[a].events)[e] <= 1;
    assert a !in multiset(r.events[e].artists) && e !in multiset(r.artists[a].events);
    forall e2, a2 | e2 in r.events && a2 in r.artists
      ensures a2 in r.events[e2].artists <==> e2 in r.artists[a2].events
    {
      assert a2 in db.events[e2].artists <==> e2 in db.artists[a2].events;
      ListedIffCounted(r.events[e2].artists, a2);
      ListedIffCounted(r.artists[a2].events, e2);
      ListedIffCounted(db.events[e2].artists, a2);
      ListedIffCounted(db.artists[a2].events, e2);
    }
  }

  /** An id is listed exactly when its multiplicity is positive. */
  lemma ListedIffCounted(s: seq<Id>, x: Id)
    ensures x in s <==> multiset(s)[x] > 0
  {
  }

  /** Event 0 lists performer 0 twice; performer 0 lists event 0 once. */
  function DuplicateListingDb(): Db {
    Db(map[0 := Event("show", "", 0, "hall", 10, 50, Scheduled, [0, 0])], map[],
       map[0 := Artist("band", "rock", "", [0])], 1, 0, 1)
  }

  /**
    Without duplicate-free lists, removeArtista can break consistency: the
    sides agree before, and afterwards the event still lists the performer
    while the performer no longer lists the event.
   */
  lemma UnlinkWithDuplicatesBreaksConsistent()
    ensures Consistent(DuplicateListingDb()) && !EventLed(DuplicateListingDb())
    ensures var r := Unlink(DuplicateListingDb(), 0, 0);
      0 in r.events[0].artists && 0 !in r.artists[0].events && !Consistent(r)
  {
    var db := DuplicateListingDb();
    var r := Unlink(db, 0, 0);
    assert r.events[0].artists == [0];
    assert r.artists[0].events == [];
    assert multiset(db.events[0].artists)[0] == 2;
  }

  /** removeArtista keeps every pair listed equally often on both sides or on the event side only. */
  lemma UnlinkKeepsEventLed(db: Db, e: Id, a: Id)
    requires e in db.events && a in db.artists && EventLed(db)
    ensures EventLed(Unlink(db, e, a))
  {
    var r := Unlink(db, e, a);
    UnlinkEffect(db, e, a);
    forall e2, a2 | e2 in r.events && a2 in r.artists
      ensures multiset(r.artists[a2].events)[e2] == 0 ||
              multiset(r.artists[a2].events)[e2] == multiset(r.events[e2].artists)[a2]
    {
      assert multiset(db.artists[a2].events)[e2] == 0 ||
             multiset(db.artists[a2].events)[e2] == multiset(db.events[e2].artists)[a2];
    }
  }

  /**
    In an event-led store, removeArtista keeps the two sides consistent
    whatever duplicates the lists hold.
   */
  lemma UnlinkKeepsConsistentWhenEventLed(db: Db, e: Id, a: Id)
    requires e in db.events && a in db.artists && EventLed(db) && Consistent(db)
    ensures Consistent(Unlink(db, e, a)) && EventLed(Unlink(db, e, a))
  {
    EventLedConsistentIsBalanced(db);
    UnlinkKeepsBalanced(db, e, a);
    BalancedIsConsistent(Unlink(db, e, a));
    UnlinkKeepsEventLed(db, e, a);
  }

  /** removeArtista keeps a store the handlers can reach reachable, and keeps whichever of Consistent and Balanced held. */
  lemma UnlinkKeepsStore(db: Db, e: Id, a: Id)
    requires e in db.events && a in db.artists && WellFormed(db) && EventLed(db)
    ensures WellFormed(Unlink(db, e, a)) && EventLed(Unlink(db, e, a))
    ensures Balanced(db) ==> Balanced(Unlink(db, e, a))
    ensures Consistent(db) ==> Consistent(Unlink(db, e, a))
  {
    UnlinkKeepsWellFormed(db, e, a);
    UnlinkKeepsEventLed(db, e, a);
    if Balanced(db) {
      UnlinkKeepsBalanced(db, e, a);
    }
    if Consistent(db) {
      UnlinkKeepsConsistentWhenEventLed(db, e, a);
    }
  }

  // ---------------------------------------------------------------------------
  // POST /eventos (insert)

  /** The insert/update filter: requested performers with an id that names an existing performer, in request order. */
  function Requested(artists: map<Id, Artist>, reqs: seq<Option<Id>>): (r: seq<Id>)
    ensures forall a :: a in r ==> a in artists
    decreases |reqs|
  {
    if reqs == [] then []
    else
      var last := reqs[|reqs| - 1];
      Requested(artists, reqs[..|reqs| - 1]) +
        (if last.Some? && last.value in artists then [last.value] else [])
  }

  /** A performer appears in the filtered list as often as the request names it, if it exists, and not at all otherwise. */
  lemma {:induction false} RequestedCounts(artists: map<Id, Artist>, reqs: seq<Option<Id>>)
    ensures forall a ::
              multiset(Requested(artists, reqs))[a] == (if a in artists then multiset(reqs)[Some(a)] else 0)
    decreases |reqs|
  {
    if reqs != [] {
      var init := reqs[..|reqs| - 1];
      RequestedCounts(artists, init);
      assert reqs == init + [reqs[|reqs| - 1]];
    }
  }

  /** The performers a new event starts with: none for a missing or empty list. */
  function InitialArtists(artists: map<Id, Artist>, req: EventRequest): (r: seq<Id>)
    ensures forall a :: a in r <==> a in artists && req.artists.Some? && Some(a) in req.artists.value
  {
    match req.artists
    case None => []
    case Some(reqs) => RequestedMembers(artists, reqs); Requested(artists, reqs)
  }

  /** The event an insert stores, with all seven scalar fields from the request. */
  function NewEvent(req: EventRequest, picked: seq<Id>): (ev: Event)
    ensures ev.artists == picked
    ensures ev == CopyFields(ev.(artists := []), req).(artists := picked)
  {
    Event(req.name, req.description, req.date, req.venue, req.capacity, req.price, req.status, picked)
  }

  /** EventoResource.insert: the event is stored under the next event id, linked on the event side only. */
  function InsertEvent(db: Db, req: EventRequest): (r: Db)
    ensures r.nextEvent == db.nextEvent + 1 && r.events.Keys == db.events.Keys + {db.nextEvent}
    ensures r.tickets == db.tickets && r.artists == db.artists
    ensures forall e :: e in db.events && e != db.nextEvent ==> r.events[e] == db.events[e]
    ensures r.events[db.nextEvent] == NewEvent(req, InitialArtists(db.artists, req))
  {
    db.(events := db.events[db.nextEvent := NewEvent(req, InitialArtists(db.artists, req))],
        nextEvent := db.nextEvent + 1)
  }

  /** The filtered list names exactly the requested ids that name existing performers. */
  lemma RequestedMembers(artists: map<Id, Artist>, reqs: seq<Option<Id>>)
    ensures forall a :: a in Requested(artists, reqs) <==> a in artists && Some(a) in reqs
  {
    RequestedCounts(artists, reqs);
    forall a ensures a in Requested(artists, reqs) <==> a in artists && Some(a) in reqs {
      assert a in Requested(artists, reqs) <==> a in multiset(Requested(artists, reqs));
      assert Some(a) in reqs <==> Some(a) in multiset(reqs);
    }
  }

  /**
    A new event's list names exactly the requested performers that exist,
    and no performer lists it; the store stays well formed.
   */
  lemma InsertEventLinks(db: Db, req: EventRequest)
    requires WellFormed(db)
    ensures db.nextEvent !in db.events
    ensures WellFormed(InsertEvent(db, req))
    ensures forall a :: a in db.artists ==> db.nextEvent !in InsertEvent(db, req).artists[a].events
    ensures forall a :: a in InsertEvent(db, req).events[db.nextEvent].artists <==>
              a in db.artists && req.artists.Some? && Some(a) in req.artists.value
  {
    if req.artists.Some? {
      RequestedMembers(db.artists, req.artists.value);
    }
  }

  /**
    Because insert links only the event side, the association stays
    consistent (and balanced) across an insert exactly when no requested
    performer exists.
   */
  lemma InsertEventOneSided(db: Db, req: EventRequest)
    requires WellFormed(db) && Balanced(db)
    ensures Consistent(InsertEvent(db, req)) <==> InitialArtists(db.artists, req) == []
    ensures Balanced(InsertEvent(db, req)) <==> InitialArtists(db.artists, req) == []
  {
    var r := InsertEvent(db, req);
    var e := db.nextEvent;
    var picked := InitialArtists(db.artists, req);
    InsertEventLinks(db, req);
    if picked == [] {
      forall e2, a | e2 in r.events && a in r.artists
        ensures multiset(r.events[e2].artists)[a] == multiset(r.artists[a].events)[e2]
      {
        if e2 == e {
          assert e !in r.artists[a].events;
        } else {
          assert multiset(db.events[e2].artists)[a] == multiset(db.artists[a].events)[e2];
        }
      }
      BalancedIsConsistent(r);
    } else {
      var a := picked[0];
      assert a in r.events[e].artists && a in r.artists && e !in r.artists[a].events;
      assert multiset(r.events[e].artists)[a] > 0;
    }
  }

  /** insert keeps a well-formed store event-led: no performer lists the new event. */
  lemma InsertEventKeepsEventLed(db: Db, req: EventRequest)
    requires WellFormed(db) && EventLed(db)
    ensures EventLed(InsertEvent(db, req))
  {
    var r := InsertEvent(db, req);
    InsertEventLinks(db, req);
    forall e, a | e in r.events && a in r.artists
      ensures multiset(r.artists[a].events)[e] == 0 ||
              multiset(r.artists[a].events)[e] == multiset(r.events[e].artists)[a]
    {
      if e == db.nextEvent {
        assert e !in r.artists[a].events;
      } else {
        assert multiset(db.artists[a].events)[e] == 0 ||
               multiset(db.artists[a].events)[e] == multiset(db.events[e].artists)[a];
      }
    }
  }

  // ---------------------------------------------------------------------------
  // PUT /eventos/{id} (update)

  /** The seven scalar fields an update copies from the request. */
  function CopyFields(ev: Event, req: EventRequest): (r: Event)
    ensures r.artists == ev.artists
    ensures r == Event(req.name, req.description, req.date, req.venue, req.capacity, req.price, req.status, ev.artists)
  {
    ev.(name := req.name, description := req.description, date := req.date, venue := req.venue,
        capacity := req.capacity, price := req.price, status := req.status)
  }

  /** One pass of the strip loop: the event is removed once from the performer's list, if the performer exists. */
  function StripStep(artists: map<Id, Artist>, e: Id, a: Id): (r: map<Id, Artist>)
    ensures r.Keys == artists.Keys
  {
    if a in artists then artists[a := artists[a].(events := RemoveFirst(artists[a].events, e))] else artists
  }

  /** The strip loop over the event's old performer list `olds`, in order. */
  function Strip(artists: map<Id, Artist>, e: Id, olds: seq<Id>): (r: map<Id, Artist>)
    ensures r.Keys == artists.Keys
    decreases |olds|
  {
    if olds == [] then artists
    else StripStep(Strip(artists, e, olds[..|olds| - 1]), e, olds[|olds| - 1])
  }

  /**
    Stripping removes the event from each performer as many times as `olds`
    lists that performer (down to zero) and changes nothing else.
   */
  lemma {:induction false} StripCounts(artists: map<Id, Artist>, e: Id, olds: seq<Id>)
    ensures forall a, y | a in artists ::
              multiset(Strip(artists, e, olds)[a].events)[y] ==
              (if y == e then Sub(multiset(artists[a].events)[e], multiset(olds)[a]) else multiset(artists[a].events)[y])
    ensures forall a :: a in artists ==> Strip(artists, e, olds)[a] == artists[a].(events := Strip(artists, e, olds)[a].events)
    decreases |olds|
  {
    if olds != [] {
      var init := olds[..|olds| - 1];
      StripCounts(artists, e, init);
      assert olds == init + [olds[|olds| - 1]];
    }
  }

  /** One pass of the re-link loop: a request entry with an existing id is linked on both sides, duplicates included. */
  function LinkStep(db: Db, e: Id, req: Option<Id>): (r: Db)
    requires e in db.events
    ensures r.events.Keys == db.events.Keys && r.artists.Keys == db.artists.Keys
    ensures r.tickets == db.tickets
    ensures r.nextEvent == db.nextEvent && r.nextTicket == db.nextTicket && r.nextArtist == db.nextArtist
  {
    if req.Some? && req.value in db.artists then Link(db, e, req.value) else db
  }

  /** The re-link loop over the request, in order. */
  function LinkAll(db: Db, e: Id, reqs: seq<Option<Id>>): (r: Db)
    requires e in db.events
    ensures r.events.Keys == db.events.Keys && r.artists.Keys == db.artists.Keys
    ensures r.tickets == db.tickets
    ensures r.nextEvent == db.nextEvent && r.nextTicket == db.nextTicket && r.nextArtist == db.nextArtist
    decreases |reqs|
  {
    if reqs == [] then db
    else LinkStep(LinkAll(db, e, reqs[..|reqs| - 1]), e, reqs[|reqs| - 1])
  }

  /**
    Re-linking appends the filtered request to the event's list and touches
    no other event and no performer's name, genre or biography.
   */
  lemma {:induction false} LinkAllEffect(db: Db, e: Id, reqs: seq<Option<Id>>)
    requires e in db.events
    ensures LinkAll(db, e, reqs).events[e] ==
            db.events[e].(artists := db.events[e].artists + Requested(db.artists, reqs))
    ensures forall e2 :: e2 in db.events && e2 != e ==> LinkAll(db, e, reqs).events[e2] == db.events[e2]
    ensures forall a :: a in db.artists ==>
              LinkAll(db, e, reqs).artists[a] == db.artists[a].(events := LinkAll(db, e, reqs).artists[a].events)
    decreases |reqs|
  {
    if reqs != [] {
      var init := reqs[..|reqs| - 1];
      LinkAllEffect(db, e, init);
      var prev := LinkAll(db, e, init);
      var last := reqs[|reqs| - 1];
      assert Requested(db.artists, reqs) ==
             Requested(db.artists, init) + (if last.Some? && last.value in db.artists then [last.value] else []);
    }
  }

  /** `n` copies of `x`. */
  function Repeat(x: Id, n: nat): (r: seq<Id>)
    ensures |r| == n
    ensures forall y :: multiset(r)[y] == if y == x then n else 0
  {
    if n == 0 then [] else Repeat(x, n - 1) + [x]
  }

  /** One re-link pass appends the event to the named performer's list and to no other. */
  lemma LinkStepPerformer(db: Db, e: Id, req: Option<Id>, a: Id)
    requires e in db.events && a in db.artists
    ensures LinkStep(db, e, req).artists[a].events == db.artists[a].events + (if req == Some(a) then [e] else [])
  {
  }

  /** One more request entry adds one to the filtered count of the performer it names, if that performer exists. */
  lemma RequestedStep(artists: map<Id, Artist>, reqs: seq<Option<Id>>, a: Id)
    requires reqs != [] && a in artists
    ensures multiset(Requested(artists, reqs))[a] ==
            multiset(Requested(artists, reqs[..|reqs| - 1]))[a] + (if reqs[|reqs| - 1] == Some(a) then 1 else 0)
  {
  }

  /** The re-link loop as seen by one performer `a`. */
  lemma {:induction false} LinkAllLinksPerformer(db: Db, e: Id, reqs: seq<Option<Id>>, a: Id)
    requires e in db.events && a in db.artists
    ensures LinkAll(db, e, reqs).artists[a].events ==
            db.artists[a].events + Repeat(e, multiset(Requested(db.artists, reqs))[a])
    decreases |reqs|
  {
    if reqs != [] {
      var init, last := reqs[..|reqs| - 1], reqs[|reqs| - 1];
      LinkAllLinksPerformer(db, e, init, a);
      var prev := LinkAll(db, e, init);
      assert LinkAll(db, e, reqs) == LinkStep(prev, e, last);
      LinkStepPerformer(prev, e, last, a);
      RequestedStep(db.artists, reqs, a);
      var k := multiset(Requested(db.artists, init))[a];
      assert Repeat(e, k + 1) == Repeat(e, k) + [e];
    }
  }

  /**
    Re-linking appends the event to each linked performer's list once per
    request entry that names it, duplicates included; a performer the
    request does not name keeps its list.
   */
  lemma LinkAllLinksPerformers(db: Db, e: Id, reqs: seq<Option<Id>>)
    requires e in db.events
    ensures forall a :: a in db.artists ==>
              LinkAll(db, e, reqs).artists[a].events ==
              db.artists[a].events + Repeat(e, multiset(Requested(db.artists, reqs))[a])
  {
    forall a | a in db.artists
      ensures LinkAll(db, e, reqs).artists[a].events ==
              db.artists[a].events + Repeat(e, multiset(Requested(db.artists, reqs))[a])
    {
      LinkAllLinksPerformer(db, e, reqs, a);
    }
  }

  /** Re-linking keeps the store well formed and keeps both sides balanced. */
  lemma {:induction false} LinkAllKeepsInvariants(db: Db, e: Id, reqs: seq<Option<Id>>)
    requires e in db.events
    ensures WellFormed(db) ==> WellFormed(LinkAll(db, e, reqs))
    ensures Balanced(db) ==> Balanced(LinkAll(db, e, reqs))
    decreases |reqs|
  {
    if reqs != [] {
      var prev := LinkAll(db, e, reqs[..|reqs| - 1]);
      LinkAllKeepsInvariants(db, e, reqs[..|reqs| - 1]);
      var last := reqs[|reqs| - 1];
      if last.Some? && last.value in prev.artists {
        if WellFormed(prev) { LinkKeepsWellFormed(prev, e, last.value); }
        if Balanced(prev) { LinkKeepsBalanced(prev, e, last.value); }
      }
    }
  }

  /** The store between the strip loop and the re-link loop: fields copied, event removed from its old performers, event's list cleared. */
  function Cleared(db: Db, e: Id, req: EventRequest): (r: Db)
    requires e in db.events
    ensures r.events.Keys == db.events.Keys && r.artists.Keys == db.artists.Keys
  {
    var copied := CopyFields(db.events[e], req);
    db.(events := db.events[e := copied.(artists := [])],
        artists := Strip(db.artists, e, db.events[e].artists))
  }

  /**
    EventoResource.update on an existing event: copy the seven scalar
    fields; if the request carries a performer list, strip the event from
    its old performers, clear its list and re-link the requested ones.
   */
  function UpdateEvent(db: Db, e: Id, req: EventRequest): (r: Db)
    requires e in db.events
    ensures r.events.Keys == db.events.Keys && r.artists.Keys == db.artists.Keys
    ensures r.tickets == db.tickets
    ensures r.nextEvent == db.nextEvent && r.nextTicket == db.nextTicket && r.nextArtist == db.nextArtist
  {
    match req.artists
    case None => db.(events := db.events[e := CopyFields(db.events[e], req)])
    case Some(reqs) => LinkAll(Cleared(db, e, req), e, reqs)
  }

  /**
    update copies exactly the seven scalar fields; a missing performer list
    leaves every link as it was, a present one leaves the event listing
    exactly the requested existing performers in request order. Other events
    and the performers' own fields are untouched.
   */
  lemma UpdateEventFields(db: Db, e: Id, req: EventRequest)
    requires e in db.events
    ensures var ev := UpdateEvent(db, e, req).events[e];
      && ev.name == req.name && ev.description == req.description && ev.date == req.date
      && ev.venue == req.venue && ev.capacity == req.capacity && ev.price == req.price
      && ev.status == req.status
    ensures req.artists.None? ==>
      UpdateEvent(db, e, req).events[e].artists == db.events[e].artists && UpdateEvent(db, e, req).artists == db.artists
    ensures req.artists.Some? ==>
      UpdateEvent(db, e, req).events[e].artists == Requested(db.artists, req.artists.value)
    ensures forall e2 :: e2 in db.events && e2 != e ==> UpdateEvent(db, e, req).events[e2] == db.events[e2]
    ensures forall a :: a in db.artists ==>
      UpdateEvent(db, e, req).artists[a] == db.artists[a].(events := UpdateEvent(db, e, req).artists[a].events)
  {
    if req.artists.Some? {
      var c := Cleared(db, e, req);
      StripCounts(db.artists, e, db.events[e].artists);
      LinkAllEffect(c, e, req.artists.value);
      assert c.artists.Keys == db.artists.Keys;
      assert Requested(c.artists, req.artists.value) == Requested(db.artists, req.artists.value) by {
        RequestedSameKeys(c.artists, db.artists, req.artists.value);
      }
    }
  }

  /**
    With a performer list in the request, update takes the event off each
    performer as often as its old list named that performer (down to zero),
    then lists it once more per request entry that names the performer; no
    other entry of a performer's list changes.
   */
  lemma UpdateEventLinksPerformers(db: Db, e: Id, req: EventRequest)
    requires e in db.events && req.artists.Some?
    ensures forall a, y | a in db.artists ::
              multiset(UpdateEvent(db, e, req).artists[a].events)[y] ==
              if y == e then
                Sub(multiset(db.artists[a].events)[e], multiset(db.events[e].artists)[a]) +
                multiset(Requested(db.artists, req.artists.value))[a]
              else multiset(db.artists[a].events)[y]
  {
    var c := Cleared(db, e, req);
    StripCounts(db.artists, e, db.events[e].artists);
    LinkAllLinksPerformers(c, e, req.artists.value);
    RequestedSameKeys(c.artists, db.artists, req.artists.value);
  }

  /** The filter depends only on which performer ids exist. */
  lemma {:induction false} RequestedSameKeys(a1: map<Id, Artist>, a2: map<Id, Artist>, reqs: seq<Option<Id>>)
    requires a1.Keys == a2.Keys
    ensures Requested(a1, reqs) == Requested(a2, reqs)
    decreases |reqs|
  {
    if reqs != [] {
      RequestedSameKeys(a1, a2, reqs[..|reqs| - 1]);
    }
  }

  /** Stripping never adds an id to a performer's list. */
  lemma ClearedKeepsWellFormed(db: Db, e: Id, req: EventRequest)
    requires e in db.events && WellFormed(db)
    ensures WellFormed(Cleared(db, e, req))
  {
    var c := Cleared(db, e, req);
    StripCounts(db.artists, e, db.events[e].artists);
    forall a, y | a in c.artists && y in c.artists[a].events
      ensures y < c.nextEvent
    {
      assert y in multiset(c.artists[a].events);
      assert multiset(c.artists[a].events)[y] <= multiset(db.artists[a].events)[y];
      assert y in multiset(db.artists[a].events);
      assert a in db.artists && y in db.artists[a].events;
    }
  }

  /**
    In a balanced store, stripping the event from its old performers removes
    every listing of it, so with the event's own list cleared the store is
    balanced again.
   */
  lemma ClearedKeepsBalanced(db: Db, e: Id, req: EventRequest)
    requires e in db.events && Balanced(db)
    ensures Balanced(Cleared(db, e, req))
  {
    var c := Cleared(db, e, req);
    StripCounts(db.artists, e, db.events[e].artists);
    forall e2, a | e2 in c.events && a in c.artists
      ensures multiset(c.events[e2].artists)[a] == multiset(c.artists[a].events)[e2]
    {
      assert multiset(db.events[e2].artists)[a] == multiset(db.artists[a].events)[e2];
    }
  }

  /** update keeps the store well formed and keeps the two sides balanced. */
  lemma UpdateEventKeepsInvariants(db: Db, e: Id, req: EventRequest)
    requires e in db.events
    ensures WellFormed(db) ==> WellFormed(UpdateEvent(db, e, req))
    ensures Balanced(db) ==> Balanced(UpdateEvent(db, e, req))
  {
    if req.artists.Some? {
      var c := Cleared(db, e, req);
      LinkAllKeepsInvariants(c, e, req.artists.value);
      if WellFormed(db) { ClearedKeepsWellFormed(db, e, req); }
      if Balanced(db) { ClearedKeepsBalanced(db, e, req); }
    }
  }

  /**
    update keeps every pair listed equally often on both sides or on the
    event side only: the strip takes every listing of the event off its old
    performers, and the re-link lists each new pair on both sides.
   */
  lemma UpdateEventKeepsEventLed(db: Db, e: Id, req: EventRequest)
    requires e in db.events && EventLed(db)
    ensures EventLed(UpdateEvent(db, e, req))
  {
    var r := UpdateEvent(db, e, req);
    UpdateEventFields(db, e, req);
    if req.artists.Some? {
      UpdateEventLinksPerformers(db, e, req);
      RequestedCounts(db.artists, req.artists.value);
    }
    forall e2, a | e2 in r.events && a in r.artists
      ensures multiset(r.artists[a].events)[e2] == 0 ||
              multiset(r.artists[a].events)[e2] == multiset(r.events[e2].artists)[a]
    {
      assert multiset(db.artists[a].events)[e2] == 0 ||
             multiset(db.artists[a].events)[e2] == multiset(db.events[e2].artists)[a];
    }
  }

  /**
    In an event-led store update keeps the two sides consistent, whatever
    duplicates the lists hold.
   */
  lemma UpdateEventKeepsConsistent(db: Db, e: Id, req: EventRequest)
    requires e in db.events && EventLed(db) && Consistent(db)
    ensures Consistent(UpdateEvent(db, e, req))
  {
    EventLedConsistentIsBalanced(db);
    UpdateEventKeepsInvariants(db, e, req);
    BalancedIsConsistent(UpdateEvent(db, e, req));
  }

  /** update keeps a store the handlers can reach reachable, and keeps whichever of Consistent and Balanced held. */
  lemma UpdateEventKeepsStore(db: Db, e: Id, req: EventRequest)
    requires e in db.events && WellFormed(db) && EventLed(db)
    ensures WellFormed(UpdateEvent(db, e, req)) && EventLed(UpdateEvent(db, e, req))
    ensures Balanced(db) ==> Balanced(UpdateEvent(db, e, req))
    ensures Consistent(db) ==> Consistent(UpdateEvent(db, e, req))
  {
    UpdateEventKeepsInvariants(db, e, req);
    UpdateEventKeepsEventLed(db, e, req);
    if Consistent(db) {
      UpdateEventKeepsConsistent(db, e, req);
    }
  }

  /**
    update copies the capacity without comparing it with the tickets already
    sold: lowering it below the record count leaves the event over capacity.
   */
  lemma UpdateEventCanBreakCapacity()
    ensures var db := Ledger.FullByUnitsDb();
      var req := EventRequest("show", "", 0, "hall", 0, 50, Scheduled, None);
      Ledger.WithinCapacity(db) && !Ledger.WithinCapacity(UpdateEvent(db, 0, req))
  {
    var db := Ledger.FullByUnitsDb();
    assert Ledger.TicketsOf(db.tickets, 0) == {0};
  }
}
