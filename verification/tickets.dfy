/** The ticket handlers of server/routes/tickets.ts. None of them catches
    an exception, so every fault is a 500. Ids come from `Number`. */
module TicketRoutes {
  import opened Wrappers
  import opened Tables
  import opened Schema
  import opened Http
  import opened Store

  /** GET /:eventId/tickets. Statement 0 fetches the event; statement 1 joins
      the attendees whose stamp equals the event's ticket stamp (bound as a
      timestamp) with their persons. A missing event is dereferenced. */
  function ListTickets(db: Db, env: Env, plan: Plan, rawId: string): (r: Step<seq<Joined<Attendee>>>)
    ensures r.db == db
    ensures r.reply.Failure? ==> r.reply.status == InternalServerError
  {
    match FetchEvent(db, plan, 0, env.toNumber(rawId))
    case None => Step(db, Failure(InternalServerError))
    case Some(None) => Step(db, Failure(InternalServerError))
    case Some(Some(e)) =>
      if plan.Raises(1) || env.timestamp(e.ticketStamp).None? then Step(db, Failure(InternalServerError))
      else
        var ts := env.timestamp(e.ticketStamp).value;
        Step(db, Success(WithPersons(db, AttendeesAt(db, ts), (a: Attendee) => a.personId)))
  }

  /** POST /:eventId/ticket. The body is validated first (400). Statement 0
      fetches the event, statement 1 inserts the person (ignoring a
      conflict), statement 2 inserts the attendee. `person.id` is read
      before `event.ticketStamp`, so a missing event fails only after the
      person is written. */
  function BuyTicket(db: Db, env: Env, plan: Plan, rawId: string, body: PersonBody): (r: Step<Row<Attendee>>)
    ensures r.db == db.(persons := r.db.persons, attendees := r.db.attendees)
    ensures !ValidPersonBody(env, body) ==> r == Step(db, Failure(BadRequest))
    ensures ValidPersonBody(env, body) && r.reply.Failure? ==> r.reply.status == InternalServerError
  {
    if !ValidPersonBody(env, body) then Step(db, Failure(BadRequest))
    else
      match FetchEvent(db, plan, 0, env.toNumber(rawId))
      case None => Step(db, Failure(InternalServerError))
      case Some(event) =>
        match InsertPersonOrIgnore(db, env, plan, 1, body)
        case None => Step(db, Failure(InternalServerError))
        case Some((db1, None)) => Step(db1, Failure(InternalServerError))
        case Some((db1, Some(personId))) =>
          match event
          case None => Step(db1, Failure(InternalServerError))
          case Some(e) =>
            match InsertAttendee(db1, env, plan, 2, personId, e.ticketStamp)
            case None => Step(db1, Failure(InternalServerError))
            case Some((db2, a)) => Step(db2, Success(a))
  }

  /** DELETE /:ticketId: one DELETE ... RETURNING; no row is a 404. */
  function ReturnTicket(db: Db, env: Env, plan: Plan, rawId: string): (r: Step<Row<Attendee>>)
    ensures r.db == db.(attendees := r.db.attendees)
    ensures r.reply.Failure? ==> r.db == db
  {
    match env.toNumber(rawId)
    case None => Step(db, Failure(InternalServerError))
    case Some(id) =>
      if plan.Raises(0) || !IsInt4(id) then Step(db, Failure(InternalServerError))
      else if id !in db.attendees.rows then Step(db, Failure(NotFound))
      else Step(db.(attendees := db.attendees.Delete({id})), Success(Row(id, db.attendees.rows[id])))
  }

  /** PATCH /:ticketId. The body must pass `insertAttendeeSchema` (400); one
      UPDATE ... RETURNING sets both columns, the stamp bound as a timestamp. */
  function EditTicket(db: Db, env: Env, plan: Plan, rawId: string, body: StampedBody): (r: Step<Row<Attendee>>)
    ensures r.db == db.(attendees := r.db.attendees)
    ensures r.db.attendees.rows.Keys == db.attendees.rows.Keys
    ensures r.reply.Failure? ==> r.db == db
    ensures !ValidStampedBody(env, body) ==> r.reply == Failure(BadRequest)
  {
    if !ValidStampedBody(env, body) then Step(db, Failure(BadRequest))
    else
      match env.toNumber(rawId)
      case None => Step(db, Failure(InternalServerError))
      case Some(id) =>
        var stamp := env.timestamp(body.stamp.value);
        if plan.Raises(0) || !IsInt4(id) || !IsInt4(body.personId.value) || stamp.None?
        then Step(db, Failure(InternalServerError))
        else if id !in db.attendees.rows then Step(db, Failure(NotFound))
        else
          var a := Attendee(body.personId.value, stamp.value);
          Step(db.(attendees := db.attendees.Put(id, a)), Success(Row(id, a)))
  }
}
