/** The event handlers of server/routes/events.ts: list, detail, create,
    update and the cascading delete. */
module EventRoutes {
  import opened Wrappers
  import opened Tables
  import opened Schema
  import opened Http
  import opened Store

  // =============================================================== list

  /** GET /: one SELECT, every event row. */
  function ListEvents(db: Db, plan: Plan): (r: Step<seq<Row<Event>>>)
    ensures r.db == db
    ensures r.reply.Failure? ==> r.reply.status == InternalServerError
  {
    if plan.Raises(0) then Step(db, Failure(InternalServerError))
    else Step(db, Success(Rows(db.events)))
  }

  // ============================================================= detail

  /** One row of the four-way left join events ⟕ venues ⟕ event_sponsors ⟕
      sponsors ⟕ hosts ⟕ persons; the link columns are not selected. */
  datatype JoinRow = JoinRow(event: Row<Event>, venue: Option<Row<Venue>>,
                             sponsor: Option<Row<Sponsor>>, host: Option<Row<Person>>)

  /** The collapsed reply of GET /:eventId. */
  datatype Detail = Detail(event: Row<Event>, venue: Option<Row<Venue>>,
                           sponsors: seq<Row<Sponsor>>, host: Option<Row<Person>>)

  /** The sponsor column contributed by each link (NULL when the sponsor row is missing). */
  function SponsorColumn(db: Db, links: seq<Row<EventSponsor>>): (r: seq<Option<Row<Sponsor>>>)
    ensures |r| == |links|
  {
    seq(|links|, i requires 0 <= i < |links| => Lookup(db.sponsors, links[i].data.sponsorId))
  }

  /** The person column contributed by each host link. */
  function HostColumn(db: Db, hosts: seq<Row<Host>>): (r: seq<Option<Row<Person>>>)
    ensures |r| == |hosts|
  {
    seq(|hosts|, i requires 0 <= i < |hosts| => Lookup(db.persons, hosts[i].data.personId))
  }

  /** A left join keeps a row with NULLs where nothing matches. */
  function OrNull<T>(xs: seq<Option<T>>): (r: seq<Option<T>>)
    ensures |r| >= 1
  {
    if xs == [] then [None] else xs
  }

  /** Every sponsor-side value paired with every host-side value, sponsor-major. */
  function Cross(e: Row<Event>, v: Option<Row<Venue>>, ss: seq<Option<Row<Sponsor>>>,
                 hs: seq<Option<Row<Person>>>): (r: seq<JoinRow>)
    decreases |ss|
  {
    if ss == [] then []
    else seq(|hs|, j requires 0 <= j < |hs| => JoinRow(e, v, ss[0], hs[j])) + Cross(e, v, ss[1..], hs)
  }

  function JoinRows(db: Db, eventId: int): seq<JoinRow> {
    if eventId !in db.events.rows then []
    else
      var e := Row(eventId, db.events.rows[eventId]);
      Cross(e, Lookup(db.venues, e.data.venueId),
            OrNull(SponsorColumn(db, LinksOf(db, eventId))),
            OrNull(HostColumn(db, HostLinksOf(db, eventId))))
  }

  /** The non-NULL values, in order. */
  function NonNull<T>(xs: seq<Option<T>>): (r: seq<T>)
    ensures |r| <= |xs|
  {
    if xs == [] then []
    else if xs[0].Some? then [xs[0].value] + NonNull(xs[1..])
    else NonNull(xs[1..])
  }

  function SponsorsIn(rows: seq<JoinRow>): seq<Option<Row<Sponsor>>> {
    seq(|rows|, i requires 0 <= i < |rows| => rows[i].sponsor)
  }

  /** event, venue and host from the first row; every non-NULL sponsor of every row. */
  function Collapse(rows: seq<JoinRow>): Detail
    requires rows != []
  {
    Detail(rows[0].event, rows[0].venue, NonNull(SponsorsIn(rows)), rows[0].host)
  }

  /** GET /:eventId. A NaN id is answered before the database is asked. */
  function GetDetail(db: Db, env: Env, plan: Plan, rawId: string): (r: Step<Detail>)
    ensures r.db == db
    ensures env.parseInt(rawId).None? ==> r.reply == Failure(NotFound)
  {
    match env.parseInt(rawId)
    case None => Step(db, Failure(NotFound))
    case Some(id) =>
      if plan.Raises(0) || !IsInt4(id) then Step(db, Failure(InternalServerError))
      else
        var rows := JoinRows(db, id);
        if rows == [] then Step(db, Failure(NotFound))
        else Step(db, Success(Collapse(rows)))
  }

  // ============================================================= create

  datatype SponsorInput = SponsorInput(name: string, email: string, phone: string, sponsorshipAgreement: string)
  datatype HostInput = HostInput(firstName: string, lastName: string, dob: string, email: string, phone: string)

  /** The POST / body: the event fields plus the nested venue, sponsors and host. */
  datatype CreateBody = CreateBody(event: EventBody, venue: VenueBody, sponsors: seq<SponsorInput>, host: HostInput)

  /** `insertEventSchema.extend(...)`: the nested objects only need the right
      JSON types, so the base schema's refinements are all that is left. */
  predicate ValidCreateBody(b: CreateBody) {
    ValidEventBody(b.event)
  }

  function VenueOf(v: VenueBody): Venue {
    Venue(v.name, v.capacity, v.province, v.town, v.address)
  }

  function SponsorOf(s: SponsorInput): Sponsor {
    Sponsor(s.name, s.email, s.phone)
  }

  function HostPersonOf(h: HostInput): PersonBody {
    PersonBody(h.firstName, h.lastName, h.dob, h.email, Some(h.phone))
  }

  function SponsorRows(ss: seq<SponsorInput>): (r: seq<Sponsor>)
    ensures |r| == |ss|
    ensures forall i :: 0 <= i < |ss| ==> r[i] == SponsorOf(ss[i])
  {
    seq(|ss|, i requires 0 <= i < |ss| => SponsorOf(ss[i]))
  }

  /** Link i joins sponsor `sponsorIds[i]` to the event with agreement i. */
  function LinkRows(eventId: int, sponsorIds: seq<int>, ss: seq<SponsorInput>): (r: seq<EventSponsor>)
    requires |sponsorIds| == |ss|
    ensures |r| == |ss|
    ensures forall i :: 0 <= i < |ss| ==> r[i] == EventSponsor(sponsorIds[i], eventId, ss[i].sponsorshipAgreement)
  {
    seq(|ss|, i requires 0 <= i < |ss| => EventSponsor(sponsorIds[i], eventId, ss[i].sponsorshipAgreement))
  }

  /** `from, from + 1, ..., from + n - 1`. */
  function Serials(from: int, n: nat): (r: seq<int>)
    ensures |r| == n
    ensures forall i :: 0 <= i < n ==> r[i] == from + i
  {
    seq(n, i requires 0 <= i < n => from + i)
  }

  lemma SponsorRowsTail(ss: seq<SponsorInput>)
    requires ss != []
    ensures SponsorRows(ss)[1..] == SponsorRows(ss[1..])
  {
  }

  lemma LinkRowsTail(eventId: int, sponsorIds: seq<int>, ss: seq<SponsorInput>)
    requires |sponsorIds| == |ss| && ss != []
    ensures LinkRows(eventId, sponsorIds, ss)[1..] == LinkRows(eventId, sponsorIds[1..], ss[1..])
  {
  }

  lemma SerialsCons(from: int, n: nat)
    requires n >= 1
    ensures [from] + Serials(from + 1, n - 1) == Serials(from, n)
  {
  }

  /** The next `n` values of the sequence exist and no row holds any of them. */
  predicate SerialsFree<R>(t: Table<R>, n: nat) {
    HasRoom(t, n) && forall i :: t.next <= i < t.next + n ==> i !in t.rows
  }

  /** A batch of `n` inserts finds its ids free exactly when the first one
      can go in and the rest then find theirs free. */
  lemma SerialsFreeStep<R>(t: Table<R>, r: R, n: nat)
    requires n >= 1
    ensures SerialsFree(t, n) <==> t.CanInsert() && (n > 1 ==> SerialsFree(t.Insert(r), n - 1))
  {
    var u := t.Insert(r);
    assert forall i :: t.next < i ==> (i in u.rows <==> i in t.rows);
    if n > 1 && t.CanInsert() && SerialsFree(u, n - 1) {
      forall i | t.next <= i < t.next + n
        ensures i !in t.rows
      {
        if i > t.next { assert u.next <= i < u.next + (n - 1); }
      }
    }
  }

  /** The store after a batch of inserts awaited together. */
  datatype Batch = Batch(db: Db, ids: seq<int>, ok: bool)

  predicate AllSponsorsFit(ss: seq<SponsorInput>) {
    forall i :: 0 <= i < |ss| ==> SponsorFits(SponsorOf(ss[i]))
  }

  /** `Promise.all` over one INSERT per sponsor, statements k, k+1, ...: every
      insert is attempted, in input order, whether or not an earlier one
      raised; `ok` says none raised. */
  function InsertSponsors(db: Db, plan: Plan, k: nat, ss: seq<SponsorInput>): (r: Batch)
    ensures r.db == db.(sponsors := r.db.sponsors)
    ensures r.db.sponsors.next >= db.sponsors.next
    ensures forall id :: id in db.sponsors.rows ==> id in r.db.sponsors.rows && r.db.sponsors.rows[id] == db.sponsors.rows[id]
    ensures r.ok <==> plan.CalmBetween(k, k + |ss|) && AllSponsorsFit(ss) && (ss != [] ==> SerialsFree(db.sponsors, |ss|))
    ensures r.ok ==> r.db.sponsors == InsertAll(db.sponsors, SponsorRows(ss)) && r.ids == Serials(db.sponsors.next, |ss|)
    decreases |ss|
  {
    if ss == [] then Batch(db, [], true)
    else
      SerialsFreeStep(db.sponsors, SponsorOf(ss[0]), |ss|);
      match InsertSponsor(db, plan, k, SponsorOf(ss[0]))
      case None =>
        var rest := InsertSponsors(db, plan, k + 1, ss[1..]);
        Batch(rest.db, rest.ids, false)
      case Some((db1, id)) =>
        var rest := InsertSponsors(db1, plan, k + 1, ss[1..]);
        SponsorRowsTail(ss);
        SerialsCons(id, |ss|);
        Batch(rest.db, [id] + rest.ids, rest.ok)
  }

  /** Every link i would satisfy both foreign keys and the integer columns. */
  predicate LinksAcceptable(db: Db, eventId: int, sponsorIds: seq<int>) {
    && IsInt4(eventId) && eventId in db.events.rows
    && forall i :: 0 <= i < |sponsorIds| ==> IsInt4(sponsorIds[i]) && sponsorIds[i] in db.sponsors.rows
  }

  /** `Promise.all` over one INSERT per sponsor link, statements k, k+1, .... */
  function InsertLinks(db: Db, plan: Plan, k: nat, eventId: int, sponsorIds: seq<int>, ss: seq<SponsorInput>): (r: Batch)
    requires |sponsorIds| == |ss|
    ensures r.db == db.(eventSponsors := r.db.eventSponsors)
    ensures r.db.eventSponsors.next >= db.eventSponsors.next
    ensures forall id :: id in db.eventSponsors.rows ==>
              id in r.db.eventSponsors.rows && r.db.eventSponsors.rows[id] == db.eventSponsors.rows[id]
    ensures r.ok <==> && plan.CalmBetween(k, k + |ss|) && (ss != [] ==> LinksAcceptable(db, eventId, sponsorIds))
                      && (ss != [] ==> SerialsFree(db.eventSponsors, |ss|))
    ensures r.ok ==> r.db.eventSponsors == InsertAll(db.eventSponsors, LinkRows(eventId, sponsorIds, ss))
    decreases |ss|
  {
    if ss == [] then Batch(db, [], true)
    else
      var link := EventSponsor(sponsorIds[0], eventId, ss[0].sponsorshipAgreement);
      SerialsFreeStep(db.eventSponsors, link, |ss|);
      match InsertEventSponsor(db, plan, k, link)
      case None =>
        var rest := InsertLinks(db, plan, k + 1, eventId, sponsorIds[1..], ss[1..]);
        Batch(rest.db, [], false)
      case Some((db1, id)) =>
        var rest := InsertLinks(db1, plan, k + 1, eventId, sponsorIds[1..], ss[1..]);
        LinkRowsTail(eventId, sponsorIds, ss);
        Batch(rest.db, [id] + rest.ids, rest.ok)
  }

  /** POST /. Statement 0 inserts the venue, 1..n the sponsors, n+1 the host
      person, n+2 the event, n+3 the host link and n+4..2n+3 the sponsor
      links. There is no transaction: whatever was written before an
      exception stays written, and every exception becomes a 400. */
  function Create(db: Db, env: Env, plan: Plan, body: CreateBody): (r: Step<int>)
    ensures r.reply.Failure? ==> r.reply.status == BadRequest
    ensures !ValidCreateBody(body) ==> r.db == db
  {
    if !ValidCreateBody(body) then Step(db, Failure(BadRequest))
    else
      match InsertVenue(db, plan, 0, VenueOf(body.venue))
      case None => Step(db, Failure(BadRequest))
      case Some((db1, venueId)) =>
        var sponsors := InsertSponsors(db1, plan, 1, body.sponsors);
        if !sponsors.ok then Step(sponsors.db, Failure(BadRequest))
        else CreateHosted(sponsors.db, env, plan, body, venueId, sponsors.ids)
  }

  /** The rest of POST / once the venue and sponsors are in: statement n+1
      inserts the host person, n+2 the event, n+3 the host link and
      n+4..2n+3 the sponsor links to `sponsorIds`. */
  function CreateHosted(db: Db, env: Env, plan: Plan, body: CreateBody, venueId: int, sponsorIds: seq<int>): (r: Step<int>)
    requires |sponsorIds| == |body.sponsors|
    ensures r.reply.Failure? ==> r.reply.status == BadRequest
    ensures r.db.venues == db.venues && r.db.sponsors == db.sponsors
  {
    var n := |body.sponsors|;
    match InsertPerson(db, env, plan, n + 1, HostPersonOf(body.host))
    case None => Step(db, Failure(BadRequest))
    case Some((db3, hostId)) =>
      match InsertEvent(db3, plan, n + 2, EventOf(body.event, venueId))
      case None => Step(db3, Failure(BadRequest))
      case Some((db4, eventId)) =>
        match InsertHost(db4, plan, n + 3, Host(hostId, eventId))
        case None => Step(db4, Failure(BadRequest))
        case Some((db5, _)) =>
          var links := InsertLinks(db5, plan, n + 4, eventId, sponsorIds, body.sponsors);
          if !links.ok then Step(links.db, Failure(BadRequest))
          else Step(links.db, Success(eventId))
  }

  // ============================================================= update

  /** PUT /:eventId. The body is checked against `insertEventSchema` before
      the handler runs (422); then a single UPDATE writes every scalar field.
      The ids are bound as integers whether or not a row matches; the text
      widths are only checked on a row that is written. */
  function Update(db: Db, env: Env, plan: Plan, rawId: string, body: EventBody): (r: Step<()>)
    ensures r.db == db.(events := r.db.events)
    ensures r.db.events.next == db.events.next && r.db.events.rows.Keys == db.events.rows.Keys
    ensures !ValidEventBody(body) ==> r == Step(db, Failure(UnprocessableEntity))
    ensures ValidEventBody(body) && env.parseInt(rawId).None? ==> r == Step(db, Failure(BadRequest))
  {
    if !ValidEventBody(body) then Step(db, Failure(UnprocessableEntity))
    else
      match env.parseInt(rawId)
      case None => Step(db, Failure(BadRequest))
      case Some(id) =>
        var e := EventOf(body, body.venueId.value);
        if plan.Raises(0) || !IsInt4(id) || !IsInt4(e.venueId) || (id in db.events.rows && !EventFits(e))
        then Step(db, Failure(InternalServerError))
        else Step(db.(events := db.events.Put(id, e)), Success(()))
  }

  // ============================================================= delete

  /** One DELETE per id, statements k, k+1, ..., stopping at the first that raises. */
  function DeleteSponsors(db: Db, plan: Plan, k: nat, ids: seq<int>): (r: Option<Db>)
    ensures r.Some? <==> && plan.CalmBetween(k, k + |ids|)
                         && forall i :: 0 <= i < |ids| ==> IsInt4(ids[i]) && !SponsorReferenced(db, ids[i])
    ensures r.Some? ==> r.value == db.(sponsors := db.sponsors.Delete(set i | i in ids))
    decreases |ids|
  {
    if ids == [] then
      assert db.sponsors.Delete({}) == db.sponsors;
      Some(db)
    else
      match DeleteSponsor(db, plan, k, ids[0])
      case None => None
      case Some(db1) =>
        assert (set i | i in ids) == {ids[0]} + (set i | i in ids[1..]);
        DeleteSponsors(db1, plan, k + 1, ids[1..])
  }

  /** One DELETE per person id, statements k, k+1, .... */
  function DeletePersons(db: Db, plan: Plan, k: nat, ids: seq<int>): (r: Option<Db>)
    ensures r.Some? <==> plan.CalmBetween(k, k + |ids|) && forall i :: 0 <= i < |ids| ==> IsInt4(ids[i])
    ensures r.Some? ==> r.value == db.(persons := db.persons.Delete(set i | i in ids))
    decreases |ids|
  {
    if ids == [] then
      assert db.persons.Delete({}) == db.persons;
      Some(db)
    else
      match DeletePerson(db, plan, k, ids[0])
      case None => None
      case Some(db1) =>
        assert (set i | i in ids) == {ids[0]} + (set i | i in ids[1..]);
        DeletePersons(db1, plan, k + 1, ids[1..])
  }

  /** Where the transaction stands after one block of statements: the store
      so far and the index of the next statement. */
  datatype Stage = Stage(db: Db, next: nat)

  /** Statements k.. of the first block: select the event's links, delete
      them, then delete each sponsor they named. */
  function DropLinks(db: Db, plan: Plan, k: nat, id: int): (r: Option<Stage>)
    ensures r.Some? ==> r.value.db == db.(eventSponsors := r.value.db.eventSponsors, sponsors := r.value.db.sponsors)
    ensures r.Some? ==> r.value.db.eventSponsors == db.eventSponsors.Delete(LinkIdsOf(db, id))
  {
    if plan.Raises(k) then None
    else
      var sponsorIds := Project(LinksOf(db, id), (l: EventSponsor) => l.sponsorId);
      if plan.Raises(k + 1) then None
      else
        var db1 := db.(eventSponsors := db.eventSponsors.Delete(LinkIdsOf(db, id)));
        match DeleteSponsors(db1, plan, k + 2, sponsorIds)
        case None => None
        case Some(db2) => Some(Stage(db2, k + 2 + |sponsorIds|))
  }

  /** The host block: select the event's host links, delete them, then
      delete each person they named. */
  function DropHosts(db: Db, plan: Plan, k: nat, id: int): (r: Option<Stage>)
    ensures r.Some? ==> r.value.db == db.(hosts := r.value.db.hosts, persons := r.value.db.persons)
  {
    if plan.Raises(k) then None
    else
      var hostPersons := Project(HostLinksOf(db, id), (h: Host) => h.personId);
      if plan.Raises(k + 1) then None
      else
        var db1 := db.(hosts := db.hosts.Delete(HostIdsOf(db, id)));
        match DeletePersons(db1, plan, k + 2, hostPersons)
        case None => None
        case Some(db2) => Some(Stage(db2, k + 2 + |hostPersons|))
  }

  /** The attendee block: select the attendees holding the event's ticket
      stamp, delete them, then delete each person they named. The varchar
      stamp is bound as a timestamp, so one that does not read as one makes
      the first statement throw. */
  function DropAttendees(db: Db, env: Env, plan: Plan, k: nat, stamp: string): (r: Option<Stage>)
    ensures r.Some? ==> r.value.db == db.(attendees := r.value.db.attendees, persons := r.value.db.persons)
  {
    if plan.Raises(k) || env.timestamp(stamp).None? then None
    else
      var ts := env.timestamp(stamp).value;
      var attendeePersons := Project(AttendeesAt(db, ts), (a: Attendee) => a.personId);
      if plan.Raises(k + 1) then None
      else
        var db1 := db.(attendees := db.attendees.Delete(AttendeeIdsAt(db, ts)));
        match DeletePersons(db1, plan, k + 2, attendeePersons)
        case None => None
        case Some(db2) => Some(Stage(db2, k + 2 + |attendeePersons|))
  }

  /** The guest block, the same for the invitation stamp. */
  function DropGuests(db: Db, env: Env, plan: Plan, k: nat, stamp: string): (r: Option<Stage>)
    ensures r.Some? ==> r.value.db == db.(invitedGuests := r.value.db.invitedGuests, persons := r.value.db.persons)
  {
    if plan.Raises(k) || env.timestamp(stamp).None? then None
    else
      var gs := env.timestamp(stamp).value;
      var guestPersons := Project(GuestsAt(db, gs), (g: InvitedGuest) => g.personId);
      if plan.Raises(k + 1) then None
      else
        var db1 := db.(invitedGuests := db.invitedGuests.Delete(GuestIdsAt(db, gs)));
        match DeletePersons(db1, plan, k + 2, guestPersons)
        case None => None
        case Some(db2) => Some(Stage(db2, k + 2 + |guestPersons|))
  }

  /** The body of `db.transaction`, statements 1, 2, ...: links then their
      sponsors, host links then their persons, attendees with the ticket
      stamp then their persons, guests with the invitation stamp then their
      persons, and the event last. None when any statement raises. */
  function Cascade(db: Db, env: Env, plan: Plan, id: int, e: Event): (r: Option<Db>)
    ensures r.Some? ==> r.value.venues == db.venues
  {
    match DropLinks(db, plan, 1, id)
    case None => None
    case Some(s1) =>
      match DropHosts(s1.db, plan, s1.next, id)
      case None => None
      case Some(s2) =>
        match DropAttendees(s2.db, env, plan, s2.next, e.ticketStamp)
        case None => None
        case Some(s3) =>
          match DropGuests(s3.db, env, plan, s3.next, e.invitationStamp)
          case None => None
          case Some(s4) => DeleteEvent(s4.db, plan, s4.next, id)
  }

  /** DELETE /:eventId. Statement 0 fetches the event; the cascade runs in a
      transaction, so an exception inside it rolls everything back. Every
      exception becomes a 400. */
  function DeleteWithDependents(db: Db, env: Env, plan: Plan, rawId: string): (r: Step<()>)
    ensures r.reply.Failure? ==> r.db == db
    ensures r.db.venues == db.venues
    ensures env.parseInt(rawId).None? ==> r.reply == Failure(NotFound)
    ensures r.reply.Failure? ==> r.reply == Failure(NotFound) || r.reply == Failure(BadRequest)
    ensures env.parseInt(rawId).Some? && (plan.Raises(0) || !IsInt4(env.parseInt(rawId).value)) ==>
              r == Step(db, Failure(BadRequest))
    ensures var id := env.parseInt(rawId).GetOr(0);
            && env.parseInt(rawId).Some? && !plan.Raises(0) && IsInt4(id) && id in db.events.rows
            && Cascade(db, env, plan, id, db.events.rows[id]).None?
            ==> r == Step(db, Failure(BadRequest))
  {
    match env.parseInt(rawId)
    case None => Step(db, Failure(NotFound))
    case Some(id) =>
      if plan.Raises(0) || !IsInt4(id) then Step(db, Failure(BadRequest))
      else if id !in db.events.rows then Step(db, Failure(NotFound))
      else
        match Cascade(db, env, plan, id, db.events.rows[id])
        case None => Step(db, Failure(BadRequest))
        case Some(db') => Step(db', Success(()))
  }
}
