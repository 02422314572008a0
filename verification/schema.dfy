/** The records of the eight tables, the constraints their column types put
    on a stored row, and the Zod insert schemas that validate request bodies
    (the files under server/db/schemas). */
module Schema {
  import opened Wrappers
  import opened Tables

  /** What the libraries and the database decide about text, which this
      model leaves abstract. */
  datatype Env = Env(
    /** JavaScript `parseInt`; None when the result is NaN. */
    parseInt: string -> Option<int>,
    /** JavaScript `Number`; None when the result is not an integral number. */
    toNumber: string -> Option<int>,
    /** Zod's `.email()`. */
    isEmail: string -> bool,
    /** Zod's `.datetime()` (ISO 8601). */
    isDatetime: string -> bool,
    /** PostgreSQL accepts the text as a `date`. */
    isDate: string -> bool,
    /** A text stamp bound where a `timestamp` is expected, as an instant;
        None when it is refused. Drizzle's default Date-mode encoder refuses
        every string (see `StampFacts`). */
    timestamp: string -> Option<int>)

  // ---------------------------------------------------------------- rows

  datatype Event = Event(name: string, eventType: string, venueId: int, ticketStamp: string, invitationStamp: string)
  datatype Venue = Venue(name: string, capacity: int, province: string, town: string, address: string)
  datatype Sponsor = Sponsor(name: string, email: string, phone: string)
  datatype EventSponsor = EventSponsor(sponsorId: int, eventId: int, sponsorshipAgreement: string)
  datatype Host = Host(personId: int, eventId: int)
  datatype Person = Person(firstName: string, lastName: string, dob: string, email: string, phone: string)
  /** `ticket_stamp` is a `timestamp` column: it holds an instant, not text. */
  datatype Attendee = Attendee(personId: int, ticketStamp: int)
  /** `invitation_stamp` is a `timestamp` column. */
  datatype InvitedGuest = InvitedGuest(personId: int, invitationStamp: int)

  // ---------------------------------------------------- column constraints
  // Every column is NOT NULL, which the record types already say; what is
  // left is the width of each `varchar(n)` and `integer` column.

  predicate EventFits(e: Event) {
    && |e.name| <= 100 && |e.eventType| <= 50 && IsInt4(e.venueId)
    && |e.ticketStamp| <= 50 && |e.invitationStamp| <= 50
  }

  predicate VenueFits(v: Venue) {
    && |v.name| <= 50 && IsInt4(v.capacity) && |v.province| <= 50
    && |v.town| <= 50 && |v.address| <= 255
  }

  predicate SponsorFits(s: Sponsor) {
    |s.name| <= 100 && |s.email| <= 100 && |s.phone| <= 13
  }

  predicate EventSponsorFits(l: EventSponsor) {
    IsInt4(l.sponsorId) && IsInt4(l.eventId)
  }

  predicate HostFits(h: Host) {
    IsInt4(h.personId) && IsInt4(h.eventId)
  }

  /** The `date` column's parsing is checked on insert, not kept as a row property. */
  predicate PersonFits(p: Person) {
    && |p.firstName| <= 50 && |p.lastName| <= 50
    && |p.email| <= 100 && |p.phone| <= 13
  }

  predicate AttendeeFits(a: Attendee) {
    IsInt4(a.personId)
  }

  predicate InvitedGuestFits(g: InvitedGuest) {
    IsInt4(g.personId)
  }

  // ------------------------------------------------------- insert schemas
  // A field the schema may lack is an Option; None stands for a body
  // without it.

  /** Body checked by `insertEventSchema`. */
  datatype EventBody = EventBody(name: string, eventType: string, venueId: Option<int>,
                                 ticketStamp: string, invitationStamp: string)

  /** `insertEventSchema`: name at most 100, type at most 50, venueId present. */
  predicate ValidEventBody(b: EventBody) {
    |b.name| <= 100 && |b.eventType| <= 50 && b.venueId.Some?
  }

  /** Body checked by `insertPersonSchema`; the phone may be left out. */
  datatype PersonBody = PersonBody(firstName: string, lastName: string, dob: string,
                                   email: string, phone: Option<string>)

  /** `insertPersonSchema`: names at most 50, an email address; the phone is optional. */
  predicate ValidPersonBody(env: Env, b: PersonBody) {
    |b.firstName| <= 50 && |b.lastName| <= 50 && env.isEmail(b.email)
  }

  datatype VenueBody = VenueBody(name: string, province: string, town: string, address: string, capacity: int)

  /** `insertVenueSchema`: a capacity of at least one. No handler applies it;
      the venue nested in a create body is checked by `ValidCreateBody`. */
  predicate ValidVenueBody(b: VenueBody) {
    b.capacity >= 1
  }

  /** Body of `insertAttendeeSchema` and of `insertInvitedGuestSchema`: a
      person id and a stamp in text. */
  datatype StampedBody = StampedBody(personId: Option<int>, stamp: Option<string>)

  /** Both schemas require the person id and an ISO 8601 datetime stamp. */
  predicate ValidStampedBody(env: Env, b: StampedBody) {
    b.personId.Some? && b.stamp.Some? && env.isDatetime(b.stamp.value)
  }

  /** The row a validated event body stores. */
  function EventOf(b: EventBody, venueId: int): Event {
    Event(b.name, b.eventType, venueId, b.ticketStamp, b.invitationStamp)
  }
}
