/** The database: eight tables, the invariant the schema declares over them,
    and the single SQL statements the handlers issue. Every statement of a
    request has an index, counted from 0; a statement either takes effect as
    a whole or raises, and nothing else happens to the store in between. */
module Store {
  import opened Wrappers
  import opened Tables
  import opened Schema
  import opened Http

  datatype Db = Db(
    events: Table<Event>,
    venues: Table<Venue>,
    sponsors: Table<Sponsor>,
    eventSponsors: Table<EventSponsor>,
    hosts: Table<Host>,
    persons: Table<Person>,
    attendees: Table<Attendee>,
    invitedGuests: Table<InvitedGuest>)

  function EmptyDb(): Db {
    Db(Empty(), Empty(), Empty(), Empty(), Empty(), Empty(), Empty(), Empty())
  }

  /** What a handler leaves behind: the store and its reply. */
  datatype Step<+T> = Step(db: Db, reply: Reply<T>)

  /** A storage fault that is not the data's fault (a lost connection, a
      timeout): the statement with index `raiseAt` raises, if there is one. */
  datatype Plan = Plan(raiseAt: Option<nat>) {
    predicate Raises(k: nat) {
      raiseAt == Some(k)
    }

    /** None of the statements with index in [lo, hi) raises. */
    predicate CalmBetween(lo: nat, hi: nat) {
      raiseAt.None? || raiseAt.value < lo || hi <= raiseAt.value
    }
  }

  // ---------------------------------------------------------- invariant

  ghost predicate AllFit<R>(t: Table<R>, fits: R -> bool) {
    forall k :: k in t.rows ==> fits(t.rows[k])
  }

  /** The two REFERENCES clauses of event_sponsors; no other table declares one. */
  ghost predicate ForeignKeys(db: Db) {
    forall k :: k in db.eventSponsors.rows ==>
      && db.eventSponsors.rows[k].sponsorId in db.sponsors.rows
      && db.eventSponsors.rows[k].eventId in db.events.rows
  }

  ghost predicate TablesValid(db: Db) {
    && db.events.Valid() && db.venues.Valid() && db.sponsors.Valid()
    && db.eventSponsors.Valid() && db.hosts.Valid() && db.persons.Valid()
    && db.attendees.Valid() && db.invitedGuests.Valid()
  }

  ghost predicate RowsFit(db: Db) {
    && AllFit(db.events, EventFits) && AllFit(db.venues, VenueFits)
    && AllFit(db.sponsors, SponsorFits) && AllFit(db.eventSponsors, EventSponsorFits)
    && AllFit(db.hosts, HostFits) && AllFit(db.persons, PersonFits)
    && AllFit(db.attendees, AttendeeFits) && AllFit(db.invitedGuests, InvitedGuestFits)
  }

  /** Everything PostgreSQL itself guarantees about a state of this schema. */
  ghost predicate Valid(db: Db) {
    TablesValid(db) && RowsFit(db) && ForeignKeys(db)
  }

  // ------------------------------------------------------------ inserts

  function InsertVenue(db: Db, plan: Plan, k: nat, v: Venue): Option<(Db, int)> {
    if plan.Raises(k) || !VenueFits(v) || !db.venues.CanInsert() then None
    else Some((db.(venues := db.venues.Insert(v)), db.venues.next))
  }

  function InsertSponsor(db: Db, plan: Plan, k: nat, s: Sponsor): Option<(Db, int)> {
    if plan.Raises(k) || !SponsorFits(s) || !db.sponsors.CanInsert() then None
    else Some((db.(sponsors := db.sponsors.Insert(s)), db.sponsors.next))
  }

  function InsertEvent(db: Db, plan: Plan, k: nat, e: Event): Option<(Db, int)> {
    if plan.Raises(k) || !EventFits(e) || !db.events.CanInsert() then None
    else Some((db.(events := db.events.Insert(e)), db.events.next))
  }

  function InsertHost(db: Db, plan: Plan, k: nat, h: Host): Option<(Db, int)> {
    if plan.Raises(k) || !HostFits(h) || !db.hosts.CanInsert() then None
    else Some((db.(hosts := db.hosts.Insert(h)), db.hosts.next))
  }

  /** Both foreign keys are checked. */
  function InsertEventSponsor(db: Db, plan: Plan, k: nat, l: EventSponsor): Option<(Db, int)> {
    if || plan.Raises(k) || !EventSponsorFits(l) || !db.eventSponsors.CanInsert()
       || l.sponsorId !in db.sponsors.rows || l.eventId !in db.events.rows
    then None
    else Some((db.(eventSponsors := db.eventSponsors.Insert(l)), db.eventSponsors.next))
  }

  /** The row a person body writes; a missing phone becomes NULL, which
      `storable` below refuses. */
  function PersonOf(b: PersonBody): Person {
    Person(b.firstName, b.lastName, b.dob, b.email, b.phone.GetOr(""))
  }

  /** The persons table accepts the body: a phone (the column is NOT NULL),
      a parsable date, and text that fits the varchar widths. */
  predicate PersonStorable(env: Env, b: PersonBody) {
    b.phone.Some? && env.isDate(b.dob) && PersonFits(PersonOf(b))
  }

  function InsertPerson(db: Db, env: Env, plan: Plan, k: nat, b: PersonBody): Option<(Db, int)> {
    if plan.Raises(k) || !PersonStorable(env, b) || !db.persons.CanInsert() then None
    else Some((db.(persons := db.persons.Insert(PersonOf(b))), db.persons.next))
  }

  /** `INSERT ... ON CONFLICT DO NOTHING RETURNING`: the inner None is the
      ignored row. The only unique constraint is the primary key. */
  function InsertPersonOrIgnore(db: Db, env: Env, plan: Plan, k: nat, b: PersonBody): Option<(Db, Option<int>)> {
    if plan.Raises(k) || !PersonStorable(env, b) || !db.persons.CanInsert() then None
    else if db.persons.next in db.persons.rows then Some((db, None))
    else Some((db.(persons := db.persons.Insert(PersonOf(b))), Some(db.persons.next)))
  }

  /** The stamp text is converted to a timestamp when the statement is bound. */
  function InsertAttendee(db: Db, env: Env, plan: Plan, k: nat, personId: int, stamp: string): Option<(Db, Row<Attendee>)> {
    if plan.Raises(k) || env.timestamp(stamp).None? then None
    else
      var a := Attendee(personId, env.timestamp(stamp).value);
      if !AttendeeFits(a) || !db.attendees.CanInsert() then None
      else Some((db.(attendees := db.attendees.Insert(a)), Row(db.attendees.next, a)))
  }

  function InsertInvitedGuest(db: Db, env: Env, plan: Plan, k: nat, personId: int, stamp: string): Option<(Db, Row<InvitedGuest>)> {
    if plan.Raises(k) || env.timestamp(stamp).None? then None
    else
      var g := InvitedGuest(personId, env.timestamp(stamp).value);
      if !InvitedGuestFits(g) || !db.invitedGuests.CanInsert() then None
      else Some((db.(invitedGuests := db.invitedGuests.Insert(g)), Row(db.invitedGuests.next, g)))
  }

  // ------------------------------------------------------------ deletes

  predicate SponsorReferenced(db: Db, id: int) {
    exists l :: l in db.eventSponsors.rows && db.eventSponsors.rows[l].sponsorId == id
  }

  predicate EventReferenced(db: Db, id: int) {
    exists l :: l in db.eventSponsors.rows && db.eventSponsors.rows[l].eventId == id
  }

  /** `DELETE FROM sponsors WHERE id = $id`: refused while a link references it. */
  function DeleteSponsor(db: Db, plan: Plan, k: nat, id: int): Option<Db> {
    if plan.Raises(k) || !IsInt4(id) || SponsorReferenced(db, id) then None
    else Some(db.(sponsors := db.sponsors.Delete({id})))
  }

  /** No foreign key points at persons, so only a fault stops this. */
  function DeletePerson(db: Db, plan: Plan, k: nat, id: int): Option<Db> {
    if plan.Raises(k) || !IsInt4(id) then None
    else Some(db.(persons := db.persons.Delete({id})))
  }

  /** `DELETE FROM events WHERE id = $id`: refused while a link references it. */
  function DeleteEvent(db: Db, plan: Plan, k: nat, id: int): Option<Db> {
    if plan.Raises(k) || !IsInt4(id) || EventReferenced(db, id) then None
    else Some(db.(events := db.events.Delete({id})))
  }

  // ------------------------------------------------------------ selects

  /** `SELECT * FROM events WHERE id = $id`, then `res[0]`: the outer None is
      an exception (a NaN or out-of-range id cannot be bound as an integer),
      the inner None is `undefined`. */
  function FetchEvent(db: Db, plan: Plan, k: nat, id: Option<int>): Option<Option<Event>> {
    if plan.Raises(k) || id.None? || !IsInt4(id.value) then None
    else Some(db.events.Get(id.value))
  }

  function LinksOf(db: Db, eventId: int): seq<Row<EventSponsor>> {
    Where(Rows(db.eventSponsors), (l: EventSponsor) => l.eventId == eventId)
  }

  function HostLinksOf(db: Db, eventId: int): seq<Row<Host>> {
    Where(Rows(db.hosts), (h: Host) => h.eventId == eventId)
  }

  function LinkIdsOf(db: Db, eventId: int): set<int> {
    set l | l in db.eventSponsors.rows && db.eventSponsors.rows[l].eventId == eventId
  }

  function HostIdsOf(db: Db, eventId: int): set<int> {
    set h | h in db.hosts.rows && db.hosts.rows[h].eventId == eventId
  }

  function AttendeeIdsAt(db: Db, stamp: int): set<int> {
    set a | a in db.attendees.rows && db.attendees.rows[a].ticketStamp == stamp
  }

  function GuestIdsAt(db: Db, stamp: int): set<int> {
    set g | g in db.invitedGuests.rows && db.invitedGuests.rows[g].invitationStamp == stamp
  }

  function AttendeesAt(db: Db, stamp: int): seq<Row<Attendee>> {
    Where(Rows(db.attendees), (a: Attendee) => a.ticketStamp == stamp)
  }

  function GuestsAt(db: Db, stamp: int): seq<Row<InvitedGuest>> {
    Where(Rows(db.invitedGuests), (g: InvitedGuest) => g.invitationStamp == stamp)
  }

  /** A ledger row paired with its person by an inner join. */
  datatype Joined<R> = Joined(row: Row<R>, person: Row<Person>)

  /** `INNER JOIN persons ON personId = persons.id`, in the order of `rs`: a
      row whose person is missing is dropped. */
  function WithPersons<R>(db: Db, rs: seq<Row<R>>, personOf: R -> int): (r: seq<Joined<R>>)
    ensures |r| <= |rs|
    decreases |rs|
  {
    if rs == [] then []
    else
      var pid := personOf(rs[0].data);
      if pid in db.persons.rows then [Joined(rs[0], Row(pid, db.persons.rows[pid]))] + WithPersons(db, rs[1..], personOf)
      else WithPersons(db, rs[1..], personOf)
  }
}
