/** Facts about single statements: each keeps the invariant PostgreSQL
    guarantees, and the inner join keeps exactly the rows whose person exists. */
module StoreFacts {
  import opened Wrappers
  import opened Tables
  import opened Schema
  import opened Store

  // ------------------------------------------------- one table at a time

  lemma AllFitInsert<R>(t: Table<R>, fits: R -> bool, r: R)
    requires AllFit(t, fits) && fits(r)
    ensures AllFit(t.Insert(r), fits)
  {
  }

  lemma AllFitPut<R>(t: Table<R>, fits: R -> bool, id: int, r: R)
    requires AllFit(t, fits) && (id in t.rows ==> fits(r))
    ensures AllFit(t.Put(id, r), fits)
  {
  }

  lemma AllFitDelete<R>(t: Table<R>, fits: R -> bool, ids: set<int>)
    requires AllFit(t, fits)
    ensures AllFit(t.Delete(ids), fits)
  {
  }

  /** Deleting and overwriting rows keep a table's ids those of its sequence. */
  lemma TableEdits<R>(t: Table<R>, ids: set<int>, id: int, r: R)
    requires t.Valid()
    ensures t.Delete(ids).Valid()
    ensures t.Put(id, r).Valid()
  {
  }

  // ------------------------------------------------------------ inserts

  /** An accepted venue insert keeps the store valid. */
  lemma InsertVenueValid(db: Db, plan: Plan, k: nat, v: Venue)
    requires Valid(db) && InsertVenue(db, plan, k, v).Some?
    ensures Valid(InsertVenue(db, plan, k, v).value.0)
  {
    InsertFresh(db.venues, v);
    AllFitInsert(db.venues, VenueFits, v);
  }

  lemma InsertSponsorValid(db: Db, plan: Plan, k: nat, s: Sponsor)
    requires Valid(db) && InsertSponsor(db, plan, k, s).Some?
    ensures Valid(InsertSponsor(db, plan, k, s).value.0)
  {
    InsertFresh(db.sponsors, s);
    AllFitInsert(db.sponsors, SponsorFits, s);
  }

  lemma InsertEventValid(db: Db, plan: Plan, k: nat, e: Event)
    requires Valid(db) && InsertEvent(db, plan, k, e).Some?
    ensures Valid(InsertEvent(db, plan, k, e).value.0)
  {
    InsertFresh(db.events, e);
    AllFitInsert(db.events, EventFits, e);
  }

  lemma InsertHostValid(db: Db, plan: Plan, k: nat, h: Host)
    requires Valid(db) && InsertHost(db, plan, k, h).Some?
    ensures Valid(InsertHost(db, plan, k, h).value.0)
  {
    InsertFresh(db.hosts, h);
    AllFitInsert(db.hosts, HostFits, h);
  }

  /** A link is only written when both rows it references exist. */
  lemma InsertEventSponsorValid(db: Db, plan: Plan, k: nat, l: EventSponsor)
    requires Valid(db) && InsertEventSponsor(db, plan, k, l).Some?
    ensures Valid(InsertEventSponsor(db, plan, k, l).value.0)
  {
    InsertFresh(db.eventSponsors, l);
    AllFitInsert(db.eventSponsors, EventSponsorFits, l);
  }

  lemma InsertPersonValid(db: Db, env: Env, plan: Plan, k: nat, b: PersonBody)
    requires Valid(db) && InsertPerson(db, env, plan, k, b).Some?
    ensures Valid(InsertPerson(db, env, plan, k, b).value.0)
  {
    InsertFresh(db.persons, PersonOf(b));
    AllFitInsert(db.persons, PersonFits, PersonOf(b));
  }

  /** In a valid store the sequence never collides with a key, so the insert
      is never ignored; it is then the plain insert. */
  lemma InsertPersonOrIgnoreNeverIgnores(db: Db, env: Env, plan: Plan, k: nat, b: PersonBody)
    requires Valid(db)
    ensures InsertPersonOrIgnore(db, env, plan, k, b).Some? <==> InsertPerson(db, env, plan, k, b).Some?
    ensures InsertPersonOrIgnore(db, env, plan, k, b).Some? ==>
              && InsertPersonOrIgnore(db, env, plan, k, b).value.1 == Some(db.persons.next)
              && InsertPersonOrIgnore(db, env, plan, k, b).value.0 == InsertPerson(db, env, plan, k, b).value.0
  {
  }

  lemma InsertAttendeeValid(db: Db, env: Env, plan: Plan, k: nat, personId: int, stamp: string)
    requires Valid(db) && InsertAttendee(db, env, plan, k, personId, stamp).Some?
    ensures Valid(InsertAttendee(db, env, plan, k, personId, stamp).value.0)
  {
    var a := Attendee(personId, env.timestamp(stamp).value);
    InsertFresh(db.attendees, a);
    AllFitInsert(db.attendees, AttendeeFits, a);
  }

  lemma InsertInvitedGuestValid(db: Db, env: Env, plan: Plan, k: nat, personId: int, stamp: string)
    requires Valid(db) && InsertInvitedGuest(db, env, plan, k, personId, stamp).Some?
    ensures Valid(InsertInvitedGuest(db, env, plan, k, personId, stamp).value.0)
  {
    var g := InvitedGuest(personId, env.timestamp(stamp).value);
    InsertFresh(db.invitedGuests, g);
    AllFitInsert(db.invitedGuests, InvitedGuestFits, g);
  }

  // ------------------------------------------------------------ deletes

  /** The foreign keys make a referenced sponsor or event undeletable, so
      the deletes that go through keep every link's references intact. */
  lemma DeleteSponsorValid(db: Db, plan: Plan, k: nat, id: int)
    requires Valid(db) && DeleteSponsor(db, plan, k, id).Some?
    ensures Valid(DeleteSponsor(db, plan, k, id).value)
  {
    TableEdits(db.sponsors, {id}, id, Sponsor("", "", ""));
    AllFitDelete(db.sponsors, SponsorFits, {id});
  }

  lemma DeleteEventValid(db: Db, plan: Plan, k: nat, id: int)
    requires Valid(db) && DeleteEvent(db, plan, k, id).Some?
    ensures Valid(DeleteEvent(db, plan, k, id).value)
  {
    TableEdits(db.events, {id}, id, Event("", "", 0, "", ""));
    AllFitDelete(db.events, EventFits, {id});
  }

  /** Nothing references persons, so deleting one never breaks the invariant,
      even while host, attendee or guest rows still carry its id. */
  lemma DeletePersonValid(db: Db, plan: Plan, k: nat, id: int)
    requires Valid(db) && DeletePerson(db, plan, k, id).Some?
    ensures Valid(DeletePerson(db, plan, k, id).value)
  {
    TableEdits(db.persons, {id}, id, Person("", "", "", "", ""));
    AllFitDelete(db.persons, PersonFits, {id});
  }

  // ------------------------------------------------------- inner join

  /** Every joined row is a row of `rs` whose person exists, paired with that person. */
  lemma {:induction false} WithPersonsSound<R>(db: Db, rs: seq<Row<R>>, personOf: R -> int, j: int)
    requires 0 <= j < |WithPersons(db, rs, personOf)|
    ensures var x := WithPersons(db, rs, personOf)[j];
            && x.row in rs
            && personOf(x.row.data) in db.persons.rows
            && x.person == Row(personOf(x.row.data), db.persons.rows[personOf(x.row.data)])
    decreases |rs|
  {
    var pid := personOf(rs[0].data);
    if pid in db.persons.rows {
      if j > 0 {
        WithPersonsSound(db, rs[1..], personOf, j - 1);
      }
    } else {
      WithPersonsSound(db, rs[1..], personOf, j);
    }
  }

  /** Every row of `rs` whose person exists is joined. */
  lemma {:induction false} WithPersonsComplete<R>(db: Db, rs: seq<Row<R>>, personOf: R -> int, i: int)
    requires 0 <= i < |rs| && personOf(rs[i].data) in db.persons.rows
    ensures Joined(rs[i], Row(personOf(rs[i].data), db.persons.rows[personOf(rs[i].data)])) in WithPersons(db, rs, personOf)
    decreases |rs|
  {
    if i > 0 {
      WithPersonsComplete(db, rs[1..], personOf, i - 1);
      assert rs[1..][i - 1] == rs[i];
    }
  }

  lemma {:induction false} WithPersonsAppend<R>(db: Db, a: seq<Row<R>>, b: seq<Row<R>>, personOf: R -> int)
    ensures WithPersons(db, a + b, personOf) == WithPersons(db, a, personOf) + WithPersons(db, b, personOf)
    decreases |a|
  {
    if a == [] {
      assert a + b == b;
    } else {
      assert (a + b)[1..] == a[1..] + b;
      WithPersonsAppend(db, a[1..], b, personOf);
    }
  }
}
