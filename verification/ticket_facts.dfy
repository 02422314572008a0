/** What the ticket handlers promise: the list is exactly the attendees
    stamped like the event whose person exists; a purchase adds one person and
    one attendee (or, for an unknown event, only the person); returning and
    editing touch one attendee row. */
module TicketFacts {
  import opened Wrappers
  import opened Tables
  import opened Schema
  import opened Http
  import opened Store
  import opened StoreFacts
  import opened TicketRoutes

  /** The ticket holders of a stamp: attendee rows carrying it, each with its person. */
  ghost predicate IsTicketList(db: Db, ts: int, xs: seq<Joined<Attendee>>) {
    && (forall j :: 0 <= j < |xs| ==>
          && xs[j].row.id in db.attendees.rows && db.attendees.rows[xs[j].row.id] == xs[j].row.data
          && xs[j].row.data.ticketStamp == ts
          && xs[j].row.data.personId in db.persons.rows
          && xs[j].person == Row(xs[j].row.data.personId, db.persons.rows[xs[j].row.data.personId]))
    && (forall a :: a in db.attendees.rows && db.attendees.rows[a].ticketStamp == ts
                    && db.attendees.rows[a].personId in db.persons.rows ==>
          Joined(Row(a, db.attendees.rows[a]), Row(db.attendees.rows[a].personId, db.persons.rows[db.attendees.rows[a].personId])) in xs)
  }

  /** The join over attendees stamped `ts` lists exactly the ticket holders of `ts`. */
  lemma AttendeeJoinExact(db: Db, ts: int)
    requires db.attendees.Valid()
    ensures IsTicketList(db, ts, WithPersons(db, AttendeesAt(db, ts), (a: Attendee) => a.personId))
  {
    var p := (a: Attendee) => a.ticketStamp == ts;
    var personOf := (a: Attendee) => a.personId;
    var rs := AttendeesAt(db, ts);
    var xs := WithPersons(db, rs, personOf);
    forall j | 0 <= j < |xs|
      ensures && xs[j].row.id in db.attendees.rows && db.attendees.rows[xs[j].row.id] == xs[j].row.data
              && xs[j].row.data.ticketStamp == ts
              && xs[j].row.data.personId in db.persons.rows
              && xs[j].person == Row(xs[j].row.data.personId, db.persons.rows[xs[j].row.data.personId])
    {
      WithPersonsSound(db, rs, personOf, j);
      var i :| 0 <= i < |rs| && rs[i] == xs[j].row;
      WhereRowsAt(db.attendees, p, i);
    }
    forall a | a in db.attendees.rows && db.attendees.rows[a].ticketStamp == ts && db.attendees.rows[a].personId in db.persons.rows
      ensures Joined(Row(a, db.attendees.rows[a]), Row(db.attendees.rows[a].personId, db.persons.rows[db.attendees.rows[a].personId])) in xs
    {
      ScanHas(db.attendees.rows, 1, db.attendees.next, a);
      var j :| 0 <= j < |Rows(db.attendees)| && Rows(db.attendees)[j] == Row(a, db.attendees.rows[a]);
      assert Row(a, db.attendees.rows[a]) in rs;
      var i :| 0 <= i < |rs| && rs[i] == Row(a, db.attendees.rows[a]);
      WithPersonsComplete(db, rs, personOf, i);
    }
  }

  /** The list succeeds exactly when the event exists, no statement faults
      and its ticket stamp reads as a timestamp; it is then the ticket
      holders of that stamp. A missing event is a 500, not an empty list. */
  lemma ListTicketsExact(db: Db, env: Env, plan: Plan, rawId: string)
    requires Valid(db) && env.toNumber(rawId).Some?
    ensures var id := env.toNumber(rawId).value;
            var r := ListTickets(db, env, plan, rawId);
            && (r.reply.Success? <==>
                  && !plan.Raises(0) && !plan.Raises(1) && IsInt4(id) && id in db.events.rows
                  && env.timestamp(db.events.rows[id].ticketStamp).Some?)
            && (r.reply.Success? ==>
                  IsTicketList(db, env.timestamp(db.events.rows[id].ticketStamp).value, r.reply.value))
  {
    var id := env.toNumber(rawId).value;
    if id in db.events.rows && env.timestamp(db.events.rows[id].ticketStamp).Some? {
      AttendeeJoinExact(db, env.timestamp(db.events.rows[id].ticketStamp).value);
    }
  }

  /** A purchase with a valid body succeeds exactly when the event exists, no
      statement faults, the person can be stored, the event's ticket stamp
      reads as a timestamp and both sequences have room. It then adds the
      person under the next person id and an attendee holding that id and
      the event's ticket stamp; nothing else changes. No existing person is
      reused, whatever its email. */
  lemma BuyEffect(db: Db, env: Env, plan: Plan, rawId: string, body: PersonBody)
    requires Valid(db) && ValidPersonBody(env, body) && env.toNumber(rawId).Some?
    ensures var id := env.toNumber(rawId).value;
            var r := BuyTicket(db, env, plan, rawId, body);
            && (r.reply.Success? <==>
                  && !plan.Raises(0) && !plan.Raises(1) && !plan.Raises(2)
                  && IsInt4(id) && id in db.events.rows
                  && PersonStorable(env, body) && HasRoom(db.persons, 1)
                  && env.timestamp(db.events.rows[id].ticketStamp).Some? && HasRoom(db.attendees, 1))
            && (r.reply.Success? ==>
                  var a := Attendee(db.persons.next, env.timestamp(db.events.rows[id].ticketStamp).value);
                  r == Step(db.(persons := db.persons.Insert(PersonOf(body)), attendees := db.attendees.Insert(a)),
                            Success(Row(db.attendees.next, a))))
  {
    RoomIsFreedom(db.persons, 1);
    RoomIsFreedom(db.attendees, 1);
  }

  /** Buying for an event that does not exist writes the person and then
      faults: a 500, an orphan person, and no attendee. */
  lemma BuyUnknownEventLeavesPerson(db: Db, env: Env, plan: Plan, rawId: string, body: PersonBody)
    requires Valid(db) && ValidPersonBody(env, body) && env.toNumber(rawId).Some?
    requires IsInt4(env.toNumber(rawId).value) && env.toNumber(rawId).value !in db.events.rows
    requires !plan.Raises(0) && !plan.Raises(1) && PersonStorable(env, body) && HasRoom(db.persons, 1)
    ensures BuyTicket(db, env, plan, rawId, body) ==
              Step(db.(persons := db.persons.Insert(PersonOf(body))), Failure(InternalServerError))
  {
    RoomIsFreedom(db.persons, 1);
  }

  /** A body without a phone passes validation but not the NOT NULL column:
      a 500 with nothing written. */
  lemma BuyWithoutPhoneFails(db: Db, env: Env, plan: Plan, rawId: string, body: PersonBody)
    requires ValidPersonBody(env, body) && body.phone.None?
    ensures BuyTicket(db, env, plan, rawId, body) == Step(db, Failure(InternalServerError))
  {
  }

  /** After a purchase, listing the same event shows the new ticket holder
      last, with the new person. */
  lemma BuyThenList(db: Db, env: Env, plan: Plan, rawId: string, body: PersonBody)
    requires Valid(db) && BuyTicket(db, env, plan, rawId, body).reply.Success?
    ensures var r := BuyTicket(db, env, plan, rawId, body);
            var l := ListTickets(r.db, env, Plan(None), rawId);
            && l.reply.Success?
            && |l.reply.value| > 0
            && l.reply.value[|l.reply.value| - 1] == Joined(r.reply.value, Row(db.persons.next, PersonOf(body)))
  {
    var id := env.toNumber(rawId).value;
    BuyEffect(db, env, plan, rawId, body);
    var ts := env.timestamp(db.events.rows[id].ticketStamp).value;
    var a := Attendee(db.persons.next, ts);
    var row := Row(db.attendees.next, a);
    var joined := Joined(row, Row(db.persons.next, PersonOf(body)));
    var after := BuyTicket(db, env, plan, rawId, body).db;
    var p := (x: Attendee) => x.ticketStamp == ts;
    var personOf := (x: Attendee) => x.personId;
    assert after.events == db.events;
    assert AttendeesAt(after, ts) == AttendeesAt(db, ts) + [row] by {
      RowsInsert(db.attendees, a);
      WhereAppend(Rows(db.attendees), [row], p);
    }
    assert WithPersons(after, AttendeesAt(after, ts), personOf) == WithPersons(after, AttendeesAt(db, ts), personOf) + [joined] by {
      WithPersonsAppend(after, AttendeesAt(db, ts), [row], personOf);
      assert WithPersons(after, [row], personOf) == [joined];
    }
  }

  /** Returning a ticket deletes exactly that attendee row and no person;
      an absent id is a 404 with nothing changed. */
  lemma ReturnEffect(db: Db, env: Env, plan: Plan, rawId: string)
    requires env.toNumber(rawId).Some?
    ensures var id := env.toNumber(rawId).value;
            var r := ReturnTicket(db, env, plan, rawId);
            && (r.reply.Success? <==> !plan.Raises(0) && IsInt4(id) && id in db.attendees.rows)
            && (r.reply.Success? ==>
                  && r.db == db.(attendees := db.attendees.Delete({id}))
                  && r.reply.value == Row(id, db.attendees.rows[id]))
            && (!plan.Raises(0) && IsInt4(id) && id !in db.attendees.rows ==> r == Step(db, Failure(NotFound)))
  {
  }

  /** Editing overwrites that attendee's person id and stamp with the body's
      and leaves every other row, and every person, alone; an absent id is a
      404 with nothing changed. */
  lemma EditEffect(db: Db, env: Env, plan: Plan, rawId: string, body: StampedBody)
    requires ValidStampedBody(env, body) && env.toNumber(rawId).Some?
    ensures var id := env.toNumber(rawId).value;
            var stamp := env.timestamp(body.stamp.value);
            var r := EditTicket(db, env, plan, rawId, body);
            var calm := !plan.Raises(0) && IsInt4(id) && IsInt4(body.personId.value) && stamp.Some?;
            && (r.reply.Success? <==> calm && id in db.attendees.rows)
            && (r.reply.Success? ==>
                  && r.db.attendees.Get(id) == Some(Attendee(body.personId.value, stamp.value))
                  && (forall k :: k != id ==> r.db.attendees.Get(k) == db.attendees.Get(k))
                  && r.db.persons == db.persons)
            && (calm && id !in db.attendees.rows ==> r == Step(db, Failure(NotFound)))
  {
  }

  /** Every ticket handler leaves a state that satisfies the schema's constraints. */
  lemma TicketsPreserveValid(db: Db, env: Env, plan: Plan, rawId: string, person: PersonBody, stamped: StampedBody)
    requires Valid(db)
    ensures Valid(BuyTicket(db, env, plan, rawId, person).db)
    ensures Valid(ReturnTicket(db, env, plan, rawId).db)
    ensures Valid(EditTicket(db, env, plan, rawId, stamped).db)
  {
    var buy := BuyTicket(db, env, plan, rawId, person);
    if ValidPersonBody(env, person) {
      match FetchEvent(db, plan, 0, env.toNumber(rawId))
      case None =>
      case Some(event) =>
        match InsertPersonOrIgnore(db, env, plan, 1, person)
        case None =>
        case Some((db1, pid)) =>
          InsertPersonOrIgnoreNeverIgnores(db, env, plan, 1, person);
          InsertPersonValid(db, env, plan, 1, person);
          if event.Some? && pid.Some? && InsertAttendee(db1, env, plan, 2, pid.value, event.value.ticketStamp).Some? {
            InsertAttendeeValid(db1, env, plan, 2, pid.value, event.value.ticketStamp);
          }
    }
    if ReturnTicket(db, env, plan, rawId).reply.Success? {
      var id := env.toNumber(rawId).value;
      TableEdits(db.attendees, {id}, id, db.attendees.rows[id]);
      AllFitDelete(db.attendees, AttendeeFits, {id});
    }
    if EditTicket(db, env, plan, rawId, stamped).reply.Success? {
      var id := env.toNumber(rawId).value;
      var a := Attendee(stamped.personId.value, env.timestamp(stamped.stamp.value).value);
      TableEdits(db.attendees, {}, id, a);
      AllFitPut(db.attendees, AttendeeFits, id, a);
    }
  }
}
