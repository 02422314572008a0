/** What follows when no text reads as a `timestamp` at all: every handler
    that binds a stamp for a `timestamp` column then fails. A Drizzle
    `timestamp` column in its default Date mode encodes a bound value with
    `toISOString()`, which a string does not have, so the varchar stamps the
    handlers bind are refused before PostgreSQL sees them. */
module StampFacts {
  import opened Wrappers
  import opened Tables
  import opened Http
  import opened Schema
  import opened Store
  import opened EventRoutes
  import opened TicketRoutes
  import opened InvitationRoutes

  /** No string is accepted where a `timestamp` is bound. */
  ghost predicate NoTextStamps(env: Env) {
    forall s :: env.timestamp(s).None?
  }

  /** Deleting an event then never succeeds: the attendee step of the cascade
      binds the ticket stamp, so an existing event's delete is a 400 and the
      transaction leaves the store as it was. */
  lemma DeleteNeedsStamps(db: Db, env: Env, plan: Plan, rawId: string)
    requires NoTextStamps(env)
    ensures DeleteWithDependents(db, env, plan, rawId).reply.Failure?
    ensures DeleteWithDependents(db, env, plan, rawId).db == db
    ensures var id := env.parseInt(rawId);
            id.Some? && !plan.Raises(0) && IsInt4(id.value) && id.value in db.events.rows ==>
              DeleteWithDependents(db, env, plan, rawId) == Step(db, Failure(BadRequest))
  {
  }

  /** Listing, buying and editing tickets then never succeed. */
  lemma TicketsNeedStamps(db: Db, env: Env, plan: Plan, rawId: string, person: PersonBody, stamped: StampedBody)
    requires NoTextStamps(env)
    ensures ListTickets(db, env, plan, rawId).reply.Failure?
    ensures BuyTicket(db, env, plan, rawId, person).reply.Failure?
    ensures EditTicket(db, env, plan, rawId, stamped).reply.Failure?
  {
  }

  /** Listing, sending and editing invitations then never succeed. */
  lemma InvitationsNeedStamps(db: Db, env: Env, plan: Plan, rawId: string, person: PersonBody, stamped: StampedBody)
    requires NoTextStamps(env)
    ensures ListInvitations(db, env, plan, rawId).reply.Failure?
    ensures SendInvitation(db, env, plan, rawId, person).reply.Failure?
    ensures EditInvitation(db, env, plan, rawId, stamped).reply.Failure?
  {
  }
}
