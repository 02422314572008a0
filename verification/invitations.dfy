/** The invitation handlers of server/routes/invitation.ts. None of them
    catches an exception, so every fault is a 500. Ids come from `Number`. */
module InvitationRoutes {
  import opened Wrappers
  import opened Tables
  import opened Schema
  import opened Http
  import opened Store

  /** GET /:eventId/invites. Statement 0 fetches the event; statement 1 joins
      the guests with their persons, keeping the guests whose invitation
      stamp equals the event's TICKET stamp. */
  function ListInvitations(db: Db, env: Env, plan: Plan, rawId: string): (r: Step<seq<Joined<InvitedGuest>>>)
    ensures r.db == db
    ensures r.reply.Failure? ==> r.reply.status == InternalServerError
  {
    match FetchEvent(db, plan, 0, env.toNumber(rawId))
    case None => Step(db, Failure(InternalServerError))
    case Some(None) => Step(db, Failure(InternalServerError))
    case Some(Some(e)) =>
      if plan.Raises(1) || env.timestamp(e.ticketStamp).None? then Step(db, Failure(InternalServerError))
      else
        var ts := env.timestamp(e.ticketStamp).value;
        Step(db, Success(WithPersons(db, GuestsAt(db, ts), (g: InvitedGuest) => g.personId)))
  }

  /** POST /:eventId/invite. The body is validated first (400). Statement 0
      fetches the event, statement 1 inserts the person (ignoring a
      conflict), statement 2 inserts the guest with the event's invitation
      stamp. */
  function SendInvitation(db: Db, env: Env, plan: Plan, rawId: string, body: PersonBody): (r: Step<Row<InvitedGuest>>)
    ensures r.db == db.(persons := r.db.persons, invitedGuests := r.db.invitedGuests)
    ensures !ValidPersonBody(env, body) ==> r == Step(db, Failure(BadRequest))
    ensures ValidPersonBody(env, body) && r.reply.Failure? ==> r.reply.status == InternalServerError
  {
    if !ValidPersonBody(env, body) then Step(db, Failure(BadRequest))
    else
      match FetchEvent(db, plan, 0, env.toNumber(rawId))
      case None => Step(db, Failure(InternalServerError))
      case Some(event) =>
        match InsertPersonOrIgnore(db, env, plan, 1, body)
        case None => Step(db, Failure(InternalServerError))
        case Some((db1, None)) => Step(db1, Failure(InternalServerError))
        case Some((db1, Some(personId))) =>
          match event
          case None => Step(db1, Failure(InternalServerError))
          case Some(e) =>
            match InsertInvitedGuest(db1, env, plan, 2, personId, e.invitationStamp)
            case None => Step(db1, Failure(InternalServerError))
            case Some((db2, g)) => Step(db2, Success(g))
  }

  /** DELETE /:invitationId: one DELETE ... RETURNING; no row is a 404. */
  function CancelInvitation(db: Db, env: Env, plan: Plan, rawId: string): (r: Step<Row<InvitedGuest>>)
    ensures r.db == db.(invitedGuests := r.db.invitedGuests)
    ensures r.reply.Failure? ==> r.db == db
  {
    match env.toNumber(rawId)
    case None => Step(db, Failure(InternalServerError))
    case Some(id) =>
      if plan.Raises(0) || !IsInt4(id) then Step(db, Failure(InternalServerError))
      else if id !in db.invitedGuests.rows then Step(db, Failure(NotFound))
      else Step(db.(invitedGuests := db.invitedGuests.Delete({id})), Success(Row(id, db.invitedGuests.rows[id])))
  }

  /** PATCH /:invitationId. The body must pass `insertInvitedGuestSchema`
      (400); one UPDATE ... RETURNING sets both columns. */
  function EditInvitation(db: Db, env: Env, plan: Plan, rawId: string, body: StampedBody): (r: Step<Row<InvitedGuest>>)
    ensures r.db == db.(invitedGuests := r.db.invitedGuests)
    ensures r.db.invitedGuests.rows.Keys == db.invitedGuests.rows.Keys
    ensures r.reply.Failure? ==> r.db == db
    ensures !ValidStampedBody(env, body) ==> r.reply == Failure(BadRequest)
  {
    if !ValidStampedBody(env, body) then Step(db, Failure(BadRequest))
    else
      match env.toNumber(rawId)
      case None => Step(db, Failure(InternalServerError))
      case Some(id) =>
        var stamp := env.timestamp(body.stamp.value);
        if plan.Raises(0) || !IsInt4(id) || !IsInt4(body.personId.value) || stamp.None?
        then Step(db, Failure(InternalServerError))
        else if id !in db.invitedGuests.rows then Step(db, Failure(NotFound))
        else
          var g := InvitedGuest(body.personId.value, stamp.value);
          Step(db.(invitedGuests := db.invitedGuests.Put(id, g)), Success(Row(id, g)))
  }
}
