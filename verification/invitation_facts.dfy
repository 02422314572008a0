/** What the invitation handlers promise. The list is keyed on the event's
    TICKET stamp while a sent invitation carries its INVITATION stamp, so a
    freshly invited guest is listed only when the two stamps agree. */
module InvitationFacts {
  import opened Wrappers
  import opened Tables
  import opened Schema
  import opened Http
  import opened Store
  import opened StoreFacts
  import opened InvitationRoutes

  /** The guests of a stamp: guest rows carrying it, each with its person. */
  ghost predicate IsGuestList(db: Db, ts: int, xs: seq<Joined<InvitedGuest>>) {
    && (forall j :: 0 <= j < |xs| ==>
          && xs[j].row.id in db.invitedGuests.rows && db.invitedGuests.rows[xs[j].row.id] == xs[j].row.data
          && xs[j].row.data.invitationStamp == ts
          && xs[j].row.data.personId in db.persons.rows
          && xs[j].person == Row(xs[j].row.data.personId, db.persons.rows[xs[j].row.data.personId]))
    && (forall g :: g in db.invitedGuests.rows && db.invitedGuests.rows[g].invitationStamp == ts
                    && db.invitedGuests.rows[g].personId in db.persons.rows ==>
          Joined(Row(g, db.invitedGuests.rows[g]), Row(db.invitedGuests.rows[g].personId, db.persons.rows[db.invitedGuests.rows[g].personId])) in xs)
  }

  /** The join over guests stamped `ts` lists exactly the guests of `ts`. */
  lemma GuestJoinExact(db: Db, ts: int)
    requires db.invitedGuests.Valid()
    ensures IsGuestList(db, ts, WithPersons(db, GuestsAt(db, ts), (g: InvitedGuest) => g.personId))
  {
    var p := (g: InvitedGuest) => g.invitationStamp == ts;
    var personOf := (g: InvitedGuest) => g.personId;
    var rs := GuestsAt(db, ts);
    var xs := WithPersons(db, rs, personOf);
    forall j | 0 <= j < |xs|
      ensures && xs[j].row.id in db.invitedGuests.rows && db.invitedGuests.rows[xs[j].row.id] == xs[j].row.data
              && xs[j].row.data.invitationStamp == ts
              && xs[j].row.data.personId in db.persons.rows
              && xs[j].person == Row(xs[j].row.data.personId, db.persons.rows[xs[j].row.data.personId])
    {
      WithPersonsSound(db, rs, personOf, j);
      var i :| 0 <= i < |rs| && rs[i] == xs[j].row;
      WhereRowsAt(db.invitedGuests, p, i);
    }
    forall g | g in db.invitedGuests.rows && db.invitedGuests.rows[g].invitationStamp == ts && db.invitedGuests.rows[g].personId in db.persons.rows
      ensures Joined(Row(g, db.invitedGuests.rows[g]), Row(db.invitedGuests.rows[g].personId, db.persons.rows[db.invitedGuests.rows[g].personId])) in xs
    {
      ScanHas(db.invitedGuests.rows, 1, db.invitedGuests.next, g);
      var j :| 0 <= j < |Rows(db.invitedGuests)| && Rows(db.invitedGuests)[j] == Row(g, db.invitedGuests.rows[g]);
      assert Row(g, db.invitedGuests.rows[g]) in rs;
      var i :| 0 <= i < |rs| && rs[i] == Row(g, db.invitedGuests.rows[g]);
      WithPersonsComplete(db, rs, personOf, i);
    }
  }

  /** The list succeeds exactly when the event exists, no statement faults
      and its ticket stamp reads as a timestamp; it is then the guests whose
      invitation stamp equals that ticket stamp. */
  lemma ListInvitationsExact(db: Db, env: Env, plan: Plan, rawId: string)
    requires Valid(db) && env.toNumber(rawId).Some?
    ensures var id := env.toNumber(rawId).value;
            var r := ListInvitations(db, env, plan, rawId);
            && (r.reply.Success? <==>
                  && !plan.Raises(0) && !plan.Raises(1) && IsInt4(id) && id in db.events.rows
                  && env.timestamp(db.events.rows[id].ticketStamp).Some?)
            && (r.reply.Success? ==>
                  IsGuestList(db, env.timestamp(db.events.rows[id].ticketStamp).value, r.reply.value))
  {
    var id := env.toNumber(rawId).value;
    if id in db.events.rows && env.timestamp(db.events.rows[id].ticketStamp).Some? {
      GuestJoinExact(db, env.timestamp(db.events.rows[id].ticketStamp).value);
    }
  }

  /** An invitation with a valid body succeeds exactly when the event exists,
      no statement faults, the person can be stored, the event's invitation
      stamp reads as a timestamp and both sequences have room. It then adds
      the person under the next person id and a guest holding that id and
      the event's invitation stamp; nothing else changes. */
  lemma SendEffect(db: Db, env: Env, plan: Plan, rawId: string, body: PersonBody)
    requires Valid(db) && ValidPersonBody(env, body) && env.toNumber(rawId).Some?
    ensures var id := env.toNumber(rawId).value;
            var r := SendInvitation(db, env, plan, rawId, body);
            && (r.reply.Success? <==>
                  && !plan.Raises(0) && !plan.Raises(1) && !plan.Raises(2)
                  && IsInt4(id) && id in db.events.rows
                  && PersonStorable(env, body) && HasRoom(db.persons, 1)
                  && env.timestamp(db.events.rows[id].invitationStamp).Some? && HasRoom(db.invitedGuests, 1))
            && (r.reply.Success? ==>
                  var g := InvitedGuest(db.persons.next, env.timestamp(db.events.rows[id].invitationStamp).value);
                  r == Step(db.(persons := db.persons.Insert(PersonOf(body)), invitedGuests := db.invitedGuests.Insert(g)),
                            Success(Row(db.invitedGuests.next, g))))
  {
    RoomIsFreedom(db.persons, 1);
    RoomIsFreedom(db.invitedGuests, 1);
  }

  /** Inviting to an event that does not exist writes the person and then
      faults: a 500, an orphan person, and no guest. */
  lemma SendUnknownEventLeavesPerson(db: Db, env: Env, plan: Plan, rawId: string, body: PersonBody)
    requires Valid(db) && ValidPersonBody(env, body) && env.toNumber(rawId).Some?
    requires IsInt4(env.toNumber(rawId).value) && env.toNumber(rawId).value !in db.events.rows
    requires !plan.Raises(0) && !plan.Raises(1) && PersonStorable(env, body) && HasRoom(db.persons, 1)
    ensures SendInvitation(db, env, plan, rawId, body) ==
              Step(db.(persons := db.persons.Insert(PersonOf(body))), Failure(InternalServerError))
  {
    RoomIsFreedom(db.persons, 1);
  }

  /** A body without a phone passes validation but not the NOT NULL column:
      a 500 with nothing written. */
  lemma SendWithoutPhoneFails(db: Db, env: Env, plan: Plan, rawId: string, body: PersonBody)
    requires ValidPersonBody(env, body) && body.phone.None?
    ensures SendInvitation(db, env, plan, rawId, body) == Step(db, Failure(InternalServerError))
  {
  }

  /** After a successful invitation whose event has a readable ticket stamp,
      listing the same event succeeds, and the new guest is on it exactly
      when the event's ticket and invitation stamps denote the same instant. */
  lemma SendThenList(db: Db, env: Env, plan: Plan, rawId: string, body: PersonBody)
    requires Valid(db) && SendInvitation(db, env, plan, rawId, body).reply.Success?
    requires env.timestamp(db.events.rows[env.toNumber(rawId).value].ticketStamp).Some?
    ensures var e := db.events.rows[env.toNumber(rawId).value];
            var r := SendInvitation(db, env, plan, rawId, body);
            var l := ListInvitations(r.db, env, Plan(None), rawId);
            && l.reply.Success?
            && (Joined(r.reply.value, Row(db.persons.next, PersonOf(body))) in l.reply.value <==>
                  env.timestamp(e.ticketStamp) == env.timestamp(e.invitationStamp))
  {
    var id := env.toNumber(rawId).value;
    SendEffect(db, env, plan, rawId, body);
    var r := SendInvitation(db, env, plan, rawId, body);
    InvitationsPreserveValid(db, env, plan, rawId, body, StampedBody(None, None));
    ListInvitationsExact(r.db, env, Plan(None), rawId);
    assert r.db.events == db.events;
    var e := db.events.rows[id];
    var ts := env.timestamp(e.ticketStamp).value;
    var xs := ListInvitations(r.db, env, Plan(None), rawId).reply.value;
    var n := db.invitedGuests.next;
    var g := InvitedGuest(db.persons.next, env.timestamp(e.invitationStamp).value);
    var x := Joined(Row(n, g), Row(db.persons.next, PersonOf(body)));
    assert r.reply.value == Row(n, g);
    assert IsGuestList(r.db, ts, xs);
    assert n in r.db.invitedGuests.rows && r.db.invitedGuests.rows[n] == g;
    assert db.persons.next in r.db.persons.rows && r.db.persons.rows[db.persons.next] == PersonOf(body);
    if x in xs {
      var j :| 0 <= j < |xs| && xs[j] == x;
      assert xs[j].row.data.invitationStamp == ts;
    }
    if env.timestamp(e.ticketStamp) == env.timestamp(e.invitationStamp) {
      assert g.invitationStamp == ts;
      assert x in xs;
    }
  }

  /** Cancelling deletes exactly that guest row and no person; an absent id
      is a 404 with nothing changed. */
  lemma CancelEffect(db: Db, env: Env, plan: Plan, rawId: string)
    requires env.toNumber(rawId).Some?
    ensures var id := env.toNumber(rawId).value;
            var r := CancelInvitation(db, env, plan, rawId);
            && (r.reply.Success? <==> !plan.Raises(0) && IsInt4(id) && id in db.invitedGuests.rows)
            && (r.reply.Success? ==>
                  && r.db == db.(invitedGuests := db.invitedGuests.Delete({id}))
                  && r.reply.value == Row(id, db.invitedGuests.rows[id]))
            && (!plan.Raises(0) && IsInt4(id) && id !in db.invitedGuests.rows ==> r == Step(db, Failure(NotFound)))
  {
  }

  /** Editing overwrites that guest's person id and stamp with the body's and
      leaves every other row, and every person, alone; an absent id is a 404
      with nothing changed. */
  lemma EditInvitationEffect(db: Db, env: Env, plan: Plan, rawId: string, body: StampedBody)
    requires ValidStampedBody(env, body) && env.toNumber(rawId).Some?
    ensures var id := env.toNumber(rawId).value;
            var stamp := env.timestamp(body.stamp.value);
            var r := EditInvitation(db, env, plan, rawId, body);
            var calm := !plan.Raises(0) && IsInt4(id) && IsInt4(body.personId.value) && stamp.Some?;
            && (r.reply.Success? <==> calm && id in db.invitedGuests.rows)
            && (r.reply.Success? ==>
                  && r.db.invitedGuests.Get(id) == Some(InvitedGuest(body.personId.value, stamp.value))
                  && (forall k :: k != id ==> r.db.invitedGuests.Get(k) == db.invitedGuests.Get(k))
                  && r.db.persons == db.persons)
            && (calm && id !in db.invitedGuests.rows ==> r == Step(db, Failure(NotFound)))
  {
  }

  /** Every invitation handler leaves a state that satisfies the schema's constraints. */
  lemma InvitationsPreserveValid(db: Db, env: Env, plan: Plan, rawId: string, person: PersonBody, stamped: StampedBody)
    requires Valid(db)
    ensures Valid(SendInvitation(db, env, plan, rawId, person).db)
    ensures Valid(CancelInvitation(db, env, plan, rawId).db)
    ensures Valid(EditInvitation(db, env, plan, rawId, stamped).db)
  {
    if ValidPersonBody(env, person) {
      match FetchEvent(db, plan, 0, env.toNumber(rawId))
      case None =>
      case Some(event) =>
        match InsertPersonOrIgnore(db, env, plan, 1, person)
        case None =>
        case Some((db1, pid)) =>
          InsertPersonOrIgnoreNeverIgnores(db, env, plan, 1, person);
          InsertPersonValid(db, env, plan, 1, person);
          if event.Some? && pid.Some? && InsertInvitedGuest(db1, env, plan, 2, pid.value, event.value.invitationStamp).Some? {
            InsertInvitedGuestValid(db1, env, plan, 2, pid.value, event.value.invitationStamp);
          }
    }
    if CancelInvitation(db, env, plan, rawId).reply.Success? {
      var id := env.toNumber(rawId).value;
      TableEdits(db.invitedGuests, {id}, id, db.invitedGuests.rows[id]);
      AllFitDelete(db.invitedGuests, InvitedGuestFits, {id});
    }
    if EditInvitation(db, env, plan, rawId, stamped).reply.Success? {
      var id := env.toNumber(rawId).value;
      var g := InvitedGuest(stamped.personId.value, env.timestamp(stamped.stamp.value).value);
      TableEdits(db.invitedGuests, {}, id, g);
      AllFitPut(db.invitedGuests, InvitedGuestFits, id, g);
    }
  }
}
