/** What the event handlers promise: the exact rows listed, the shape of a
    detail reply, the rows a create writes (and leaves behind when it fails
    half way), what an update overwrites, and what a cascading delete
    removes. */
module EventFacts {
  import opened Wrappers
  import opened Tables
  import opened Schema
  import opened Http
  import opened Store
  import opened StoreFacts
  import opened EventRoutes

  // =============================================================== list

  /** Without a fault the list is every event row, each exactly once, in id order. */
  lemma ListEventsExact(db: Db, plan: Plan)
    requires Valid(db)
    ensures ListEvents(db, plan).reply.Success? <==> !plan.Raises(0)
    ensures var r := ListEvents(db, plan);
            r.reply.Success? ==>
              && (forall i :: 0 <= i < |r.reply.value| ==>
                    r.reply.value[i].id in db.events.rows && db.events.rows[r.reply.value[i].id] == r.reply.value[i].data)
              && (forall i, j :: 0 <= i < j < |r.reply.value| ==> r.reply.value[i].id < r.reply.value[j].id)
              && (forall k :: k in db.events.rows ==> Row(k, db.events.rows[k]) in r.reply.value)
  {
    RowsExact(db.events);
  }

  // ============================================================= detail

  lemma {:induction false} NonNullAppend<T>(a: seq<Option<T>>, b: seq<Option<T>>)
    ensures NonNull(a + b) == NonNull(a) + NonNull(b)
    decreases |a|
  {
    if a == [] {
      assert a + b == b;
    } else {
      assert (a + b)[1..] == a[1..] + b;
      NonNullAppend(a[1..], b);
    }
  }

  /** `h` copies of one value keep `h` values, or none when it is NULL. */
  lemma {:induction false} NonNullCopies<T>(x: Option<T>, h: nat)
    ensures |NonNull(seq(h, _ => x))| == if x.Some? then h else 0
    decreases h
  {
    if h > 0 {
      assert seq(h, _ => x)[1..] == seq(h - 1, _ => x);
      NonNullCopies(x, h - 1);
    }
  }

  /** All values present: NonNull just unwraps them. */
  lemma {:induction false} NonNullAllPresent<T>(xs: seq<Option<T>>)
    requires forall i :: 0 <= i < |xs| ==> xs[i].Some?
    ensures |NonNull(xs)| == |xs|
    ensures forall i :: 0 <= i < |xs| ==> NonNull(xs)[i] == xs[i].value
    decreases |xs|
  {
    if xs != [] {
      NonNullAllPresent(xs[1..]);
      assert forall i :: 1 <= i < |xs| ==> NonNull(xs)[i] == NonNull(xs[1..])[i - 1];
    }
  }

  lemma NonNullOrNull<T>(xs: seq<Option<T>>)
    ensures NonNull(OrNull(xs)) == NonNull(xs)
  {
  }

  /** The first joined row pairs the first sponsor value with the first host value. */
  lemma CrossHead(e: Row<Event>, v: Option<Row<Venue>>, ss: seq<Option<Row<Sponsor>>>, hs: seq<Option<Row<Person>>>)
    requires ss != [] && hs != []
    ensures Cross(e, v, ss, hs) != [] && Cross(e, v, ss, hs)[0] == JoinRow(e, v, ss[0], hs[0])
  {
  }

  /** Each sponsor value is repeated once per host value. */
  lemma {:induction false} CrossSponsorCount(e: Row<Event>, v: Option<Row<Venue>>, ss: seq<Option<Row<Sponsor>>>,
                                             hs: seq<Option<Row<Person>>>)
    ensures |NonNull(SponsorsIn(Cross(e, v, ss, hs)))| == |NonNull(ss)| * |hs|
    decreases |ss|
  {
    if ss != [] {
      var h := |hs|;
      var block := seq(h, j requires 0 <= j < h => JoinRow(e, v, ss[0], hs[j]));
      var rest := Cross(e, v, ss[1..], hs);
      assert Cross(e, v, ss, hs) == block + rest;
      assert SponsorsIn(block + rest) == SponsorsIn(block) + SponsorsIn(rest);
      assert SponsorsIn(block) == seq(h, _ => ss[0]);
      NonNullAppend(SponsorsIn(block), SponsorsIn(rest));
      NonNullCopies(ss[0], h);
      CrossSponsorCount(e, v, ss[1..], hs);
      assert ss == [ss[0]] + ss[1..];
      NonNullAppend([ss[0]], ss[1..]);
      var c := if ss[0].Some? then 1 else 0;
      var a := |NonNull(ss[1..])|;
      assert |NonNull(ss)| == c + a;
      assert |NonNull(SponsorsIn(Cross(e, v, ss, hs)))| == c * h + a * h;
      assert c * h + a * h == (c + a) * h;
    }
  }

  /** With a single host value the sponsor column is the sponsor values themselves. */
  lemma {:induction false} CrossOneHost(e: Row<Event>, v: Option<Row<Venue>>, ss: seq<Option<Row<Sponsor>>>,
                                        hs: seq<Option<Row<Person>>>)
    requires |hs| == 1
    ensures SponsorsIn(Cross(e, v, ss, hs)) == ss
    decreases |ss|
  {
    if ss != [] {
      var block := seq(|hs|, j requires 0 <= j < |hs| => JoinRow(e, v, ss[0], hs[j]));
      var rest := Cross(e, v, ss[1..], hs);
      assert SponsorsIn(block + rest) == SponsorsIn(block) + SponsorsIn(rest);
      CrossOneHost(e, v, ss[1..], hs);
      assert ss == [ss[0]] + ss[1..];
    }
  }

  /** The detail of an existing event: the event row, its venue (NULL when
      missing), the person of its first host link, and every non-NULL sponsor
      of every joined row, so each linked sponsor once per host row. A
      missing event is a 404; NaN is a 404 before any query; a fault or an
      id outside `integer` is a 500. */
  lemma DetailReply(db: Db, env: Env, plan: Plan, rawId: string)
    ensures var r := GetDetail(db, env, plan, rawId);
            && (r.reply == Failure(NotFound) <==>
                  || env.parseInt(rawId).None?
                  || (!plan.Raises(0) && IsInt4(env.parseInt(rawId).value) && env.parseInt(rawId).value !in db.events.rows))
            && (r.reply == Failure(InternalServerError) <==>
                  env.parseInt(rawId).Some? && (plan.Raises(0) || !IsInt4(env.parseInt(rawId).value)))
    ensures var r := GetDetail(db, env, plan, rawId);
            r.reply.Success? ==>
              var id := env.parseInt(rawId).value;
              var hosts := HostLinksOf(db, id);
              && id in db.events.rows
              && r.reply.value.event == Row(id, db.events.rows[id])
              && r.reply.value.venue == Lookup(db.venues, db.events.rows[id].venueId)
              && r.reply.value.host == (if hosts == [] then None else Lookup(db.persons, hosts[0].data.personId))
              && |r.reply.value.sponsors| == |NonNull(SponsorColumn(db, LinksOf(db, id)))| * |OrNull(HostColumn(db, hosts))|
  {
    if env.parseInt(rawId).Some? {
      var id := env.parseInt(rawId).value;
      if id in db.events.rows {
        var e := Row(id, db.events.rows[id]);
        var v := Lookup(db.venues, e.data.venueId);
        var ss := OrNull(SponsorColumn(db, LinksOf(db, id)));
        var hs := OrNull(HostColumn(db, HostLinksOf(db, id)));
        CrossHead(e, v, ss, hs);
        CrossSponsorCount(e, v, ss, hs);
        NonNullOrNull(SponsorColumn(db, LinksOf(db, id)));
      }
    }
  }

  /** With the foreign keys in force and at most one host row, the sponsors
      of a detail are exactly the sponsors of the event's links, in link order. */
  lemma DetailSponsorsOneHost(db: Db, env: Env, plan: Plan, rawId: string)
    requires ForeignKeys(db)
    requires env.parseInt(rawId).Some? && |HostLinksOf(db, env.parseInt(rawId).value)| <= 1
    requires GetDetail(db, env, plan, rawId).reply.Success?
    ensures var id := env.parseInt(rawId).value;
            var links := LinksOf(db, id);
            var d := GetDetail(db, env, plan, rawId).reply.value;
            && |d.sponsors| == |links|
            && forall i :: 0 <= i < |links| ==>
                 && links[i].data.sponsorId in db.sponsors.rows
                 && d.sponsors[i] == Row(links[i].data.sponsorId, db.sponsors.rows[links[i].data.sponsorId])
  {
    var id := env.parseInt(rawId).value;
    var links := LinksOf(db, id);
    var e := Row(id, db.events.rows[id]);
    var ss := OrNull(SponsorColumn(db, links));
    var hs := OrNull(HostColumn(db, HostLinksOf(db, id)));
    var col := SponsorColumn(db, links);
    forall i | 0 <= i < |links| ensures links[i].data.sponsorId in db.sponsors.rows {
      WhereRowsAt(db.eventSponsors, (l: EventSponsor) => l.eventId == id, i);
    }
    CrossOneHost(e, Lookup(db.venues, e.data.venueId), ss, hs);
    NonNullOrNull(col);
    NonNullAllPresent(col);
  }

  // ============================================================= create

  /** What the data of a create must satisfy for every insert to be accepted. */
  predicate CreateFits(db: Db, env: Env, body: CreateBody) {
    var n := |body.sponsors|;
    && ValidCreateBody(body)
    && VenueFits(VenueOf(body.venue)) && HasRoom(db.venues, 1)
    && AllSponsorsFit(body.sponsors) && HasRoom(db.sponsors, n)
    && PersonStorable(env, HostPersonOf(body.host)) && HasRoom(db.persons, 1)
    && EventFits(EventOf(body.event, db.venues.next)) && HasRoom(db.events, 1)
    && HasRoom(db.hosts, 1) && HasRoom(db.eventSponsors, n)
  }

  /** A create has 2n + 4 statements for n sponsors. */
  function CreateStatements(body: CreateBody): nat {
    2 * |body.sponsors| + 4
  }

  /** Reference result of a create that goes through: one venue, the n
      sponsors, the host person, the event pointing at the new venue, the
      host link, and link i from sponsor i to the event. */
  function AfterCreate(db: Db, body: CreateBody): Db {
    var n := |body.sponsors|;
    var eventId := db.events.next;
    db.(venues := db.venues.Insert(VenueOf(body.venue)),
        sponsors := InsertAll(db.sponsors, SponsorRows(body.sponsors)),
        persons := db.persons.Insert(PersonOf(HostPersonOf(body.host))),
        events := db.events.Insert(EventOf(body.event, db.venues.next)),
        hosts := db.hosts.Insert(Host(db.persons.next, eventId)),
        eventSponsors := InsertAll(db.eventSponsors, LinkRows(eventId, Serials(db.sponsors.next, n), body.sponsors)))
  }

  lemma CalmSplit(plan: Plan, n: nat)
    ensures plan.CalmBetween(0, 2 * n + 4) <==>
              && !plan.Raises(0) && plan.CalmBetween(1, n + 1) && !plan.Raises(n + 1)
              && !plan.Raises(n + 2) && !plan.Raises(n + 3) && plan.CalmBetween(n + 4, 2 * n + 4)
  {
  }

  /** The sponsors a batch has just inserted are there for the links to reference. */
  lemma FreshSponsorsLinkable(db: Db, eventId: int, from: int, n: nat)
    requires 1 <= from && from + n <= MaxInt4 + 1
    requires forall k :: from <= k < from + n ==> k in db.sponsors.rows
    requires 1 <= eventId <= MaxInt4 && eventId in db.events.rows
    ensures LinksAcceptable(db, eventId, Serials(from, n))
  {
  }

  /** Once the sponsors `from .. from + n - 1` are in, the rest of a create
      succeeds exactly when none of its statements faults and the host
      person, the event and every link can be stored; it then adds the
      person, the event, the host link and link i to sponsor `from + i`, and
      answers with the new event's id. */
  lemma CreateHostedExact(db: Db, env: Env, plan: Plan, body: CreateBody, venueId: int, from: int)
    requires db.persons.Valid() && db.events.Valid() && db.hosts.Valid() && db.eventSponsors.Valid()
    requires 1 <= from && from + |body.sponsors| <= MaxInt4 + 1
    requires forall k :: from <= k < from + |body.sponsors| ==> k in db.sponsors.rows
    ensures var n := |body.sponsors|;
            var r := CreateHosted(db, env, plan, body, venueId, Serials(from, n));
            && (r.reply.Success? <==>
                  && !plan.Raises(n + 1) && !plan.Raises(n + 2) && !plan.Raises(n + 3) && plan.CalmBetween(n + 4, 2 * n + 4)
                  && PersonStorable(env, HostPersonOf(body.host)) && HasRoom(db.persons, 1)
                  && EventFits(EventOf(body.event, venueId)) && HasRoom(db.events, 1)
                  && HasRoom(db.hosts, 1) && HasRoom(db.eventSponsors, n))
            && (r.reply.Success? ==>
                  r == Step(db.(persons := db.persons.Insert(PersonOf(HostPersonOf(body.host))),
                                events := db.events.Insert(EventOf(body.event, venueId)),
                                hosts := db.hosts.Insert(Host(db.persons.next, db.events.next)),
                                eventSponsors := InsertAll(db.eventSponsors, LinkRows(db.events.next, Serials(from, n), body.sponsors))),
                            Success(db.events.next)))
  {
    var n := |body.sponsors|;
    RoomIsFreedom(db.persons, 1);
    RoomIsFreedom(db.events, 1);
    RoomIsFreedom(db.hosts, 1);
    RoomIsFreedom(db.eventSponsors, n);
    match InsertPerson(db, env, plan, n + 1, HostPersonOf(body.host))
    case None =>
    case Some((db3, hostId)) =>
      match InsertEvent(db3, plan, n + 2, EventOf(body.event, venueId))
      case None =>
      case Some((db4, eventId)) =>
        match InsertHost(db4, plan, n + 3, Host(hostId, eventId))
        case None =>
        case Some((db5, _)) =>
          FreshSponsorsLinkable(db5, eventId, from, n);
  }

  /** A create succeeds exactly when no statement faults and every insert
      is accepted, and then it has written exactly the reference rows and
      answers with the new event's id. */
  lemma CreateSucceedsIff(db: Db, env: Env, plan: Plan, body: CreateBody)
    requires Valid(db)
    ensures Create(db, env, plan, body).reply.Success? <==>
              plan.CalmBetween(0, CreateStatements(body)) && CreateFits(db, env, body)
    ensures plan.CalmBetween(0, CreateStatements(body)) && CreateFits(db, env, body) ==>
              Create(db, env, plan, body) == Step(AfterCreate(db, body), Success(db.events.next))
  {
    var n := |body.sponsors|;
    CalmSplit(plan, n);
    RoomIsFreedom(db.venues, 1);
    RoomIsFreedom(db.sponsors, n);
    if !ValidCreateBody(body) {
      return;
    }
    match InsertVenue(db, plan, 0, VenueOf(body.venue))
    case None =>
    case Some((db1, venueId)) =>
      var sponsors := InsertSponsors(db1, plan, 1, body.sponsors);
      if !sponsors.ok {
        return;
      }
      InsertAllFacts(db.sponsors, SponsorRows(body.sponsors));
      CreateHostedExact(sponsors.db, env, plan, body, venueId, db.sponsors.next);
  }

  /** A batch insert adds exactly its rows, under consecutive fresh ids. */
  lemma BatchPlaced<R>(t: Table<R>, rs: seq<R>)
    requires t.Valid() && HasRoom(t, |rs|)
    ensures |InsertAll(t, rs).rows| == |t.rows| + |rs|
    ensures forall k :: t.next <= k < t.next + |rs| ==> InsertAll(t, rs).Get(k) == Some(rs[k - t.next])
  {
    InsertAllSize(t, rs);
    InsertAllFacts(t, rs);
  }

  lemma SponsorsPlaced(t: Table<Sponsor>, ss: seq<SponsorInput>)
    requires t.Valid() && HasRoom(t, |ss|)
    ensures |InsertAll(t, SponsorRows(ss)).rows| == |t.rows| + |ss|
    ensures forall k :: t.next <= k < t.next + |ss| ==> InsertAll(t, SponsorRows(ss)).Get(k) == Some(SponsorOf(ss[k - t.next]))
  {
    BatchPlaced(t, SponsorRows(ss));
  }

  lemma LinksPlaced(t: Table<EventSponsor>, eventId: int, from: int, ss: seq<SponsorInput>)
    requires t.Valid() && HasRoom(t, |ss|)
    ensures var links := LinkRows(eventId, Serials(from, |ss|), ss);
            && |InsertAll(t, links).rows| == |t.rows| + |ss|
            && forall k :: t.next <= k < t.next + |ss| ==>
                 InsertAll(t, links).Get(k) == Some(EventSponsor(from + (k - t.next), eventId, ss[k - t.next].sponsorshipAgreement))
  {
    var links := LinkRows(eventId, Serials(from, |ss|), ss);
    BatchPlaced(t, links);
    forall k | t.next <= k < t.next + |ss|
      ensures InsertAll(t, links).Get(k) == Some(EventSponsor(from + (k - t.next), eventId, ss[k - t.next].sponsorshipAgreement))
    {
      assert links[k - t.next] == EventSponsor(from + (k - t.next), eventId, ss[k - t.next].sponsorshipAgreement);
    }
  }

  /** The single rows a successful create adds: one venue, one host person,
      one event whose venueId is the new venue's id and whose fields and
      stamps are the payload's, and one host link from the new person to the
      new event. Tickets and invitations are untouched. */
  lemma CreatedRecords(db: Db, body: CreateBody)
    requires db.venues.CanInsert() && db.persons.CanInsert() && db.events.CanInsert() && db.hosts.CanInsert()
    ensures var a := AfterCreate(db, body);
            var eventId := db.events.next;
            && |a.venues.rows| == |db.venues.rows| + 1
            && a.venues.Get(db.venues.next) == Some(VenueOf(body.venue))
            && |a.persons.rows| == |db.persons.rows| + 1
            && a.persons.Get(db.persons.next) == Some(PersonOf(HostPersonOf(body.host)))
            && |a.events.rows| == |db.events.rows| + 1
            && a.events.Get(eventId) == Some(Event(body.event.name, body.event.eventType, db.venues.next,
                                                   body.event.ticketStamp, body.event.invitationStamp))
            && |a.hosts.rows| == |db.hosts.rows| + 1
            && a.hosts.Get(db.hosts.next) == Some(Host(db.persons.next, eventId))
            && a.attendees == db.attendees && a.invitedGuests == db.invitedGuests
  {
  }

  /** The batches a successful create adds: n sponsor rows in input order
      (identical sponsors become distinct rows), and n links where link i
      joins sponsor i to the new event with agreement i. */
  lemma CreatedSponsorsAndLinks(db: Db, body: CreateBody)
    requires db.sponsors.Valid() && db.eventSponsors.Valid()
    requires HasRoom(db.sponsors, |body.sponsors|) && HasRoom(db.eventSponsors, |body.sponsors|)
    ensures var a := AfterCreate(db, body);
            var n := |body.sponsors|;
            var eventId := db.events.next;
            && |a.sponsors.rows| == |db.sponsors.rows| + n
            && (forall k :: db.sponsors.next <= k < db.sponsors.next + n ==>
                  a.sponsors.Get(k) == Some(SponsorOf(body.sponsors[k - db.sponsors.next])))
            && |a.eventSponsors.rows| == |db.eventSponsors.rows| + n
            && (forall k :: db.eventSponsors.next <= k < db.eventSponsors.next + n ==>
                  a.eventSponsors.Get(k) == Some(EventSponsor(db.sponsors.next + (k - db.eventSponsors.next), eventId,
                                                              body.sponsors[k - db.eventSponsors.next].sponsorshipAgreement)))
  {
    SponsorsPlaced(db.sponsors, body.sponsors);
    LinksPlaced(db.eventSponsors, db.events.next, db.sponsors.next, body.sponsors);
  }

  /** Every row of `t` is still in `t2`, unchanged. */
  ghost predicate Keeps<R>(t: Table<R>, t2: Table<R>) {
    forall k :: k in t.rows ==> k in t2.rows && t2.rows[k] == t.rows[k]
  }

  /** Every row of every table of `db` is still in `db2`, unchanged, and
      the ticket and invitation tables are untouched. */
  ghost predicate Extends(db: Db, db2: Db) {
    && Keeps(db.events, db2.events) && Keeps(db.venues, db2.venues) && Keeps(db.sponsors, db2.sponsors)
    && Keeps(db.eventSponsors, db2.eventSponsors) && Keeps(db.hosts, db2.hosts) && Keeps(db.persons, db2.persons)
    && db2.attendees == db.attendees && db2.invitedGuests == db.invitedGuests
  }

  lemma KeepsInsert<R>(t: Table<R>, r: R)
    requires t.CanInsert()
    ensures Keeps(t, t.Insert(r))
  {
  }

  lemma ExtendsTransitive(a: Db, b: Db, c: Db)
    requires Extends(a, b) && Extends(b, c)
    ensures Extends(a, c)
  {
  }

  /** A create, whether it succeeds or fails, only adds rows: it never
      overwrites or removes one, and never touches tickets or invitations. */
  lemma CreateOnlyAdds(db: Db, env: Env, plan: Plan, body: CreateBody)
    ensures Extends(db, Create(db, env, plan, body).db)
  {
    var n := |body.sponsors|;
    if !ValidCreateBody(body) {
      return;
    }
    match InsertVenue(db, plan, 0, VenueOf(body.venue))
    case None =>
    case Some((db1, venueId)) =>
      KeepsInsert(db.venues, VenueOf(body.venue));
      assert Extends(db, db1);
      var sponsors := InsertSponsors(db1, plan, 1, body.sponsors);
      assert Extends(db1, sponsors.db);
      ExtendsTransitive(db, db1, sponsors.db);
      if !sponsors.ok {
        return;
      }
      match InsertPerson(sponsors.db, env, plan, n + 1, HostPersonOf(body.host))
      case None =>
      case Some((db3, hostId)) =>
        KeepsInsert(sponsors.db.persons, PersonOf(HostPersonOf(body.host)));
        ExtendsTransitive(db, sponsors.db, db3);
        match InsertEvent(db3, plan, n + 2, EventOf(body.event, venueId))
        case None =>
        case Some((db4, eventId)) =>
          KeepsInsert(db3.events, EventOf(body.event, venueId));
          ExtendsTransitive(db, db3, db4);
          match InsertHost(db4, plan, n + 3, Host(hostId, eventId))
          case None =>
          case Some((db5, _)) =>
            KeepsInsert(db4.hosts, Host(hostId, eventId));
            ExtendsTransitive(db, db4, db5);
            var links := InsertLinks(db5, plan, n + 4, eventId, sponsors.ids, body.sponsors);
            assert Extends(db5, links.db);
            ExtendsTransitive(db, db5, links.db);
  }

  /** `Promise.all` over sponsor inserts keeps the store valid whatever it returns. */
  lemma {:induction false} InsertSponsorsValid(db: Db, plan: Plan, k: nat, ss: seq<SponsorInput>)
    requires Valid(db)
    ensures Valid(InsertSponsors(db, plan, k, ss).db)
    decreases |ss|
  {
    if ss != [] {
      match InsertSponsor(db, plan, k, SponsorOf(ss[0]))
      case None =>
        InsertSponsorsValid(db, plan, k + 1, ss[1..]);
      case Some((db1, id)) =>
        InsertSponsorValid(db, plan, k, SponsorOf(ss[0]));
        InsertSponsorsValid(db1, plan, k + 1, ss[1..]);
    }
  }

  lemma {:induction false} InsertLinksValid(db: Db, plan: Plan, k: nat, eventId: int, sponsorIds: seq<int>, ss: seq<SponsorInput>)
    requires Valid(db) && |sponsorIds| == |ss|
    ensures Valid(InsertLinks(db, plan, k, eventId, sponsorIds, ss).db)
    decreases |ss|
  {
    if ss != [] {
      var link := EventSponsor(sponsorIds[0], eventId, ss[0].sponsorshipAgreement);
      match InsertEventSponsor(db, plan, k, link)
      case None =>
        InsertLinksValid(db, plan, k + 1, eventId, sponsorIds[1..], ss[1..]);
      case Some((db1, id)) =>
        InsertEventSponsorValid(db, plan, k, link);
        InsertLinksValid(db1, plan, k + 1, eventId, sponsorIds[1..], ss[1..]);
    }
  }

  /** A fault at sponsor insert i of the `Promise.all` fails the batch, but
      every other insert is still attempted: the sponsors before and after i
      are stored, in order, under consecutive ids. */
  lemma {:induction false} SponsorsOneFault(db: Db, plan: Plan, k: nat, ss: seq<SponsorInput>, i: nat)
    requires i < |ss| && plan.raiseAt == Some(k + i)
    requires AllSponsorsFit(ss) && SerialsFree(db.sponsors, |ss|)
    ensures var r := InsertSponsors(db, plan, k, ss);
            var rows := SponsorRows(ss);
            && !r.ok
            && r.db == db.(sponsors := InsertAll(db.sponsors, rows[..i] + rows[i + 1..]))
    decreases |ss|
  {
    var rows := SponsorRows(ss);
    var kept := rows[..i] + rows[i + 1..];
    assert rows[1..] == SponsorRows(ss[1..]) by {
      SponsorRowsTail(ss);
    }
    assert AllSponsorsFit(ss[1..]) by {
      forall j | 0 <= j < |ss[1..]|
        ensures SponsorFits(SponsorOf(ss[1..][j]))
      {
        assert ss[1..][j] == ss[j + 1];
      }
    }
    if i == 0 {
      var rest := InsertSponsors(db, plan, k + 1, ss[1..]);
      assert rest.ok && rest.db == db.(sponsors := InsertAll(db.sponsors, rows[1..])) by {
        assert SerialsFree(db.sponsors, |ss| - 1);
      }
      assert kept == rows[1..];
    } else {
      var db1 := db.(sponsors := db.sponsors.Insert(SponsorOf(ss[0])));
      var rest := InsertSponsors(db1, plan, k + 1, ss[1..]);
      var later := rows[1..][..i - 1] + rows[1..][i..];
      assert InsertSponsor(db, plan, k, SponsorOf(ss[0])) == Some((db1, db.sponsors.next)) && SerialsFree(db1.sponsors, |ss| - 1) by {
        SerialsFreeStep(db.sponsors, SponsorOf(ss[0]), |ss|);
      }
      assert !rest.ok && rest.db == db1.(sponsors := InsertAll(db1.sponsors, later)) by {
        SponsorsOneFault(db1, plan, k + 1, ss[1..], i - 1);
      }
      assert InsertAll(db.sponsors, kept) == InsertAll(db1.sponsors, later) by {
        assert kept[0] == SponsorOf(ss[0]);
        assert kept[1..] == later;
      }
    }
  }

  /** A fault at link insert i fails the batch, but every other link is
      still inserted, in order, under consecutive ids. */
  lemma {:induction false} LinksOneFault(db: Db, plan: Plan, k: nat, eventId: int, sponsorIds: seq<int>, ss: seq<SponsorInput>, i: nat)
    requires |sponsorIds| == |ss| && i < |ss| && plan.raiseAt == Some(k + i)
    requires LinksAcceptable(db, eventId, sponsorIds) && SerialsFree(db.eventSponsors, |ss|)
    ensures var r := InsertLinks(db, plan, k, eventId, sponsorIds, ss);
            var links := LinkRows(eventId, sponsorIds, ss);
            && !r.ok
            && r.db == db.(eventSponsors := InsertAll(db.eventSponsors, links[..i] + links[i + 1..]))
    decreases |ss|
  {
    var links := LinkRows(eventId, sponsorIds, ss);
    var kept := links[..i] + links[i + 1..];
    var link := EventSponsor(sponsorIds[0], eventId, ss[0].sponsorshipAgreement);
    assert links[1..] == LinkRows(eventId, sponsorIds[1..], ss[1..]) by {
      LinkRowsTail(eventId, sponsorIds, ss);
    }
    assert LinksAcceptable(db, eventId, sponsorIds[1..]) by {
      forall j | 0 <= j < |sponsorIds[1..]|
        ensures IsInt4(sponsorIds[1..][j]) && sponsorIds[1..][j] in db.sponsors.rows
      {
        assert sponsorIds[1..][j] == sponsorIds[j + 1];
      }
    }
    if i == 0 {
      var rest := InsertLinks(db, plan, k + 1, eventId, sponsorIds[1..], ss[1..]);
      assert rest.ok && rest.db == db.(eventSponsors := InsertAll(db.eventSponsors, links[1..])) by {
        assert SerialsFree(db.eventSponsors, |ss| - 1);
      }
      assert kept == links[1..];
    } else {
      var db1 := db.(eventSponsors := db.eventSponsors.Insert(link));
      var rest := InsertLinks(db1, plan, k + 1, eventId, sponsorIds[1..], ss[1..]);
      var later := links[1..][..i - 1] + links[1..][i..];
      assert InsertEventSponsor(db, plan, k, link) == Some((db1, db.eventSponsors.next))
             && SerialsFree(db1.eventSponsors, |ss| - 1) by {
        SerialsFreeStep(db.eventSponsors, link, |ss|);
      }
      assert !rest.ok && rest.db == db1.(eventSponsors := InsertAll(db1.eventSponsors, later)) by {
        assert LinksAcceptable(db1, eventId, sponsorIds[1..]);
        LinksOneFault(db1, plan, k + 1, eventId, sponsorIds[1..], ss[1..], i - 1);
      }
      assert InsertAll(db.eventSponsors, kept) == InsertAll(db1.eventSponsors, later) by {
        assert kept[0] == link;
        assert kept[1..] == later;
      }
    }
  }

  /** Every state a create leaves behind, finished or not, satisfies the
      schema's constraints. */
  lemma CreatePreservesValid(db: Db, env: Env, plan: Plan, body: CreateBody)
    requires Valid(db)
    ensures Valid(Create(db, env, plan, body).db)
  {
    var n := |body.sponsors|;
    if !ValidCreateBody(body) {
      return;
    }
    match InsertVenue(db, plan, 0, VenueOf(body.venue))
    case None =>
    case Some((db1, venueId)) =>
      InsertVenueValid(db, plan, 0, VenueOf(body.venue));
      var sponsors := InsertSponsors(db1, plan, 1, body.sponsors);
      InsertSponsorsValid(db1, plan, 1, body.sponsors);
      if !sponsors.ok {
        return;
      }
      match InsertPerson(sponsors.db, env, plan, n + 1, HostPersonOf(body.host))
      case None =>
      case Some((db3, hostId)) =>
        InsertPersonValid(sponsors.db, env, plan, n + 1, HostPersonOf(body.host));
        match InsertEvent(db3, plan, n + 2, EventOf(body.event, venueId))
        case None =>
        case Some((db4, eventId)) =>
          InsertEventValid(db3, plan, n + 2, EventOf(body.event, venueId));
          match InsertHost(db4, plan, n + 3, Host(hostId, eventId))
          case None =>
          case Some((db5, _)) =>
            InsertHostValid(db4, plan, n + 3, Host(hostId, eventId));
            InsertLinksValid(db5, plan, n + 4, eventId, sponsors.ids, body.sponsors);
  }

  /** Create has no transaction: once the venue is written, a fault at any
      later statement answers 400 and leaves the venue behind. */
  lemma CreateKeepsVenueOnLaterFault(db: Db, env: Env, plan: Plan, body: CreateBody, k: nat)
    requires Valid(db) && ValidCreateBody(body)
    requires VenueFits(VenueOf(body.venue)) && HasRoom(db.venues, 1)
    requires plan.raiseAt == Some(k) && 1 <= k < CreateStatements(body)
    ensures Create(db, env, plan, body).reply == Failure(BadRequest)
    ensures Create(db, env, plan, body).db.venues == db.venues.Insert(VenueOf(body.venue))
  {
    CreateSucceedsIff(db, env, plan, body);
    RoomIsFreedom(db.venues, 1);
    var db1 := InsertVenue(db, plan, 0, VenueOf(body.venue)).value.0;
    var sponsors := InsertSponsors(db1, plan, 1, body.sponsors);
    assert sponsors.db.venues == db1.venues;
    var n := |body.sponsors|;
    if sponsors.ok {
      match InsertPerson(sponsors.db, env, plan, n + 1, HostPersonOf(body.host))
      case None =>
      case Some((db3, hostId)) =>
        match InsertEvent(db3, plan, n + 2, EventOf(body.event, db.venues.next))
        case None =>
        case Some((db4, eventId)) =>
          match InsertHost(db4, plan, n + 3, Host(hostId, eventId))
          case None =>
          case Some((db5, _)) =>
            var links := InsertLinks(db5, plan, n + 4, eventId, sponsors.ids, body.sponsors);
            assert links.db.venues == db5.venues;
    }
  }

  /** A fault at the host-link insert (statement n + 3) answers 400 and
      leaves an event behind with its venue, sponsors and host person, but
      with no host link and no sponsor links. */
  lemma CreateOrphansEventOnHostLinkFault(db: Db, env: Env, plan: Plan, body: CreateBody)
    requires Valid(db) && CreateFits(db, env, body)
    requires plan.raiseAt == Some(|body.sponsors| + 3)
    ensures var r := Create(db, env, plan, body);
            && r.reply == Failure(BadRequest)
            && r.db == AfterCreate(db, body).(hosts := db.hosts, eventSponsors := db.eventSponsors)
  {
    var n := |body.sponsors|;
    RoomIsFreedom(db.venues, 1);
    RoomIsFreedom(db.sponsors, n);
    RoomIsFreedom(db.persons, 1);
    RoomIsFreedom(db.events, 1);
    var db1 := InsertVenue(db, plan, 0, VenueOf(body.venue)).value.0;
    var sponsors := InsertSponsors(db1, plan, 1, body.sponsors);
    assert sponsors.ok;
  }

  /** Reference result of a create whose statement k raises: whatever the
      statements before k wrote stays. Statement 0 is the venue, 1..n the
      sponsors (all but the faulting one still go in), n+1 the host person,
      n+2 the event, n+3 the host link and n+4..2n+3 the sponsor links (all
      but the faulting one still go in). */
  function CreatedBefore(db: Db, body: CreateBody, k: nat): Db {
    var n := |body.sponsors|;
    var rows := SponsorRows(body.sponsors);
    var links := LinkRows(db.events.next, Serials(db.sponsors.next, n), body.sponsors);
    var full := AfterCreate(db, body);
    if k == 0 then db
    else if k <= n then db.(venues := full.venues, sponsors := InsertAll(db.sponsors, rows[..k - 1] + rows[k..]))
    else if k == n + 1 then full.(persons := db.persons, events := db.events, hosts := db.hosts, eventSponsors := db.eventSponsors)
    else if k == n + 2 then full.(events := db.events, hosts := db.hosts, eventSponsors := db.eventSponsors)
    else if k == n + 3 then full.(hosts := db.hosts, eventSponsors := db.eventSponsors)
    else if k < 2 * n + 4 then full.(eventSponsors := InsertAll(db.eventSponsors, links[..k - n - 4] + links[k - n - 3..]))
    else full
  }

  /** Once the sponsors are in, a fault at statement k of the rest of a
      create answers 400 and keeps what the statements before k wrote. */
  lemma CreateHostedFault(db: Db, env: Env, plan: Plan, body: CreateBody, venueId: int, from: int, k: nat)
    requires db.persons.Valid() && db.events.Valid() && db.hosts.Valid() && db.eventSponsors.Valid()
    requires 1 <= from && from + |body.sponsors| <= MaxInt4 + 1
    requires forall j :: from <= j < from + |body.sponsors| ==> j in db.sponsors.rows
    requires PersonStorable(env, HostPersonOf(body.host)) && HasRoom(db.persons, 1)
    requires EventFits(EventOf(body.event, venueId)) && HasRoom(db.events, 1)
    requires HasRoom(db.hosts, 1) && HasRoom(db.eventSponsors, |body.sponsors|)
    requires plan.raiseAt == Some(k) && |body.sponsors| + 1 <= k < 2 * |body.sponsors| + 4
    ensures var n := |body.sponsors|;
            var links := LinkRows(db.events.next, Serials(from, n), body.sponsors);
            var withPerson := db.(persons := db.persons.Insert(PersonOf(HostPersonOf(body.host))));
            var withEvent := withPerson.(events := db.events.Insert(EventOf(body.event, venueId)));
            var withHost := withEvent.(hosts := db.hosts.Insert(Host(db.persons.next, db.events.next)));
            CreateHosted(db, env, plan, body, venueId, Serials(from, n)) ==
              Step(if k == n + 1 then db
                   else if k == n + 2 then withPerson
                   else if k == n + 3 then withEvent
                   else withHost.(eventSponsors := InsertAll(db.eventSponsors, links[..k - n - 4] + links[k - n - 3..])),
                   Failure(BadRequest))
  {
    var n := |body.sponsors|;
    RoomIsFreedom(db.persons, 1);
    RoomIsFreedom(db.events, 1);
    RoomIsFreedom(db.hosts, 1);
    RoomIsFreedom(db.eventSponsors, n);
    if k >= n + 4 {
      var db3 := db.(persons := db.persons.Insert(PersonOf(HostPersonOf(body.host))));
      var db4 := db3.(events := db.events.Insert(EventOf(body.event, venueId)));
      var db5 := db4.(hosts := db.hosts.Insert(Host(db.persons.next, db.events.next)));
      assert InsertPerson(db, env, plan, n + 1, HostPersonOf(body.host)) == Some((db3, db.persons.next));
      assert InsertEvent(db3, plan, n + 2, EventOf(body.event, venueId)) == Some((db4, db.events.next));
      assert InsertHost(db4, plan, n + 3, Host(db.persons.next, db.events.next)).Some?;
      FreshSponsorsLinkable(db5, db.events.next, from, n);
      LinksOneFault(db5, plan, n + 4, db.events.next, Serials(from, n), body.sponsors, k - n - 4);
    }
  }

  /** Create has no transaction: a fault at any statement k answers 400 and
      leaves exactly what the statements before k wrote, as `CreatedBefore`
      lists it. */
  lemma CreateFaultLeavesPrefix(db: Db, env: Env, plan: Plan, body: CreateBody, k: nat)
    requires Valid(db) && CreateFits(db, env, body)
    requires plan.raiseAt == Some(k) && k < CreateStatements(body)
    ensures Create(db, env, plan, body) == Step(CreatedBefore(db, body, k), Failure(BadRequest))
  {
    var n := |body.sponsors|;
    RoomIsFreedom(db.venues, 1);
    RoomIsFreedom(db.sponsors, n);
    if k > 0 {
      var db1 := db.(venues := db.venues.Insert(VenueOf(body.venue)));
      assert InsertVenue(db, plan, 0, VenueOf(body.venue)) == Some((db1, db.venues.next));
      if k <= n {
        SponsorsOneFault(db1, plan, 1, body.sponsors, k - 1);
      } else {
        var sponsors := InsertSponsors(db1, plan, 1, body.sponsors);
        assert sponsors.ok;
        InsertAllFacts(db.sponsors, SponsorRows(body.sponsors));
        CreateHostedFault(sponsors.db, env, plan, body, db.venues.next, db.sponsors.next, k);
      }
    }
  }

  // ============================================================= update

  /** An update with a valid body and a numeric id writes every scalar field
      of the event with that id and nothing else; it answers 200 even when no
      event has that id, and then the store is unchanged. A fault, an id or
      venueId outside `integer`, or a text too wide for an existing row is a
      500 with nothing written. */
  lemma UpdateEffect(db: Db, env: Env, plan: Plan, rawId: string, body: EventBody)
    requires ValidEventBody(body) && env.parseInt(rawId).Some?
    ensures var id := env.parseInt(rawId).value;
            var e := EventOf(body, body.venueId.value);
            var r := Update(db, env, plan, rawId, body);
            && (r.reply.Success? <==>
                  !plan.Raises(0) && IsInt4(id) && IsInt4(e.venueId) && (id in db.events.rows ==> EventFits(e)))
            && (r.reply.Failure? ==> r == Step(db, Failure(InternalServerError)))
            && (r.reply.Success? ==>
                  && r.db.events.Get(id) == (if id in db.events.rows then Some(e) else None)
                  && (forall k :: k != id ==> r.db.events.Get(k) == db.events.Get(k))
                  && (id !in db.events.rows ==> r.db == db))
  {
  }

  lemma UpdatePreservesValid(db: Db, env: Env, plan: Plan, rawId: string, body: EventBody)
    requires Valid(db)
    ensures Valid(Update(db, env, plan, rawId, body).db)
  {
    if ValidEventBody(body) && env.parseInt(rawId).Some? {
      var id := env.parseInt(rawId).value;
      var e := EventOf(body, body.venueId.value);
      if Update(db, env, plan, rawId, body).reply.Success? {
        TableEdits(db.events, {}, id, e);
        AllFitPut(db.events, EventFits, id, e);
      }
    }
  }

  /** Nothing checks the venue: an update may point an event at a venue
      that does not exist, and the store stays valid. */
  lemma UpdateMayDangle(db: Db, env: Env, plan: Plan, rawId: string, body: EventBody)
    requires Valid(db) && ValidEventBody(body) && env.parseInt(rawId).Some?
    requires env.parseInt(rawId).value in db.events.rows && !plan.Raises(0)
    requires EventFits(EventOf(body, body.venueId.value)) && body.venueId.value !in db.venues.rows
    ensures var r := Update(db, env, plan, rawId, body);
            && r.reply.Success? && Valid(r.db)
            && r.db.events.rows[env.parseInt(rawId).value].venueId !in r.db.venues.rows
  {
    UpdatePreservesValid(db, env, plan, rawId, body);
  }

  // ============================================================= delete

  /** The sponsors linked to the event. */
  function DoomedSponsors(db: Db, id: int): set<int> {
    set l | l in db.eventSponsors.rows && db.eventSponsors.rows[l].eventId == id :: db.eventSponsors.rows[l].sponsorId
  }

  function HostPersons(db: Db, id: int): set<int> {
    set h | h in db.hosts.rows && db.hosts.rows[h].eventId == id :: db.hosts.rows[h].personId
  }

  function AttendeePersons(db: Db, ts: int): set<int> {
    set a | a in db.attendees.rows && db.attendees.rows[a].ticketStamp == ts :: db.attendees.rows[a].personId
  }

  function GuestPersons(db: Db, gs: int): set<int> {
    set g | g in db.invitedGuests.rows && db.invitedGuests.rows[g].invitationStamp == gs :: db.invitedGuests.rows[g].personId
  }

  /** Reference result of a delete that goes through, for an event whose
      stamps read as the instants `ts` and `gs`: the event, its links and the
      sponsors they name, its host links, every attendee stamped `ts` and
      every guest stamped `gs` (of any event), and every person any of those
      rows names, whoever else still names them. Venues stay. */
  function Cascaded(db: Db, id: int, ts: int, gs: int): Db {
    db.(events := db.events.Delete({id}),
        sponsors := db.sponsors.Delete(DoomedSponsors(db, id)),
        eventSponsors := db.eventSponsors.Delete(LinkIdsOf(db, id)),
        hosts := db.hosts.Delete(HostIdsOf(db, id)),
        persons := db.persons.Delete(HostPersons(db, id) + AttendeePersons(db, ts) + GuestPersons(db, gs)),
        attendees := db.attendees.Delete(AttendeeIdsAt(db, ts)),
        invitedGuests := db.invitedGuests.Delete(GuestIdsAt(db, gs)))
  }

  /** Some sponsor of the event is also linked to another event, so the
      foreign key refuses to delete it. */
  predicate SponsorShared(db: Db, id: int) {
    exists l, m :: && l in db.eventSponsors.rows && m in db.eventSponsors.rows
                   && db.eventSponsors.rows[l].eventId == id && db.eventSponsors.rows[m].eventId != id
                   && db.eventSponsors.rows[m].sponsorId == db.eventSponsors.rows[l].sponsorId
  }

  /** The ids the cascade collects with its SELECTs are the ids of the
      matching rows, and all of them fit `integer`. */
  lemma CollectedSponsors(db: Db, id: int)
    requires db.eventSponsors.Valid() && AllFit(db.eventSponsors, EventSponsorFits)
    ensures var ids := Project(LinksOf(db, id), (l: EventSponsor) => l.sponsorId);
            && (set x | x in ids) == DoomedSponsors(db, id)
            && forall i :: 0 <= i < |ids| ==> IsInt4(ids[i])
  {
    var p := (l: EventSponsor) => l.eventId == id;
    var ids := Project(LinksOf(db, id), (l: EventSponsor) => l.sponsorId);
    SelectedValues(db.eventSponsors, p, (l: EventSponsor) => l.sponsorId);
    forall i | 0 <= i < |ids| ensures IsInt4(ids[i]) {
      WhereRowsAt(db.eventSponsors, p, i);
    }
  }

  lemma CollectedHostPersons(db: Db, id: int)
    requires db.hosts.Valid() && AllFit(db.hosts, HostFits)
    ensures var ids := Project(HostLinksOf(db, id), (h: Host) => h.personId);
            && (set x | x in ids) == HostPersons(db, id)
            && forall i :: 0 <= i < |ids| ==> IsInt4(ids[i])
  {
    var p := (h: Host) => h.eventId == id;
    var ids := Project(HostLinksOf(db, id), (h: Host) => h.personId);
    SelectedValues(db.hosts, p, (h: Host) => h.personId);
    forall i | 0 <= i < |ids| ensures IsInt4(ids[i]) {
      WhereRowsAt(db.hosts, p, i);
    }
  }

  lemma CollectedAttendeePersons(db: Db, ts: int)
    requires db.attendees.Valid() && AllFit(db.attendees, AttendeeFits)
    ensures var ids := Project(AttendeesAt(db, ts), (a: Attendee) => a.personId);
            && (set x | x in ids) == AttendeePersons(db, ts)
            && forall i :: 0 <= i < |ids| ==> IsInt4(ids[i])
  {
    var p := (a: Attendee) => a.ticketStamp == ts;
    var ids := Project(AttendeesAt(db, ts), (a: Attendee) => a.personId);
    SelectedValues(db.attendees, p, (a: Attendee) => a.personId);
    forall i | 0 <= i < |ids| ensures IsInt4(ids[i]) {
      WhereRowsAt(db.attendees, p, i);
    }
  }

  lemma CollectedGuestPersons(db: Db, gs: int)
    requires db.invitedGuests.Valid() && AllFit(db.invitedGuests, InvitedGuestFits)
    ensures var ids := Project(GuestsAt(db, gs), (g: InvitedGuest) => g.personId);
            && (set x | x in ids) == GuestPersons(db, gs)
            && forall i :: 0 <= i < |ids| ==> IsInt4(ids[i])
  {
    var p := (g: InvitedGuest) => g.invitationStamp == gs;
    var ids := Project(GuestsAt(db, gs), (g: InvitedGuest) => g.personId);
    SelectedValues(db.invitedGuests, p, (g: InvitedGuest) => g.personId);
    forall i | 0 <= i < |ids| ensures IsInt4(ids[i]) {
      WhereRowsAt(db.invitedGuests, p, i);
    }
  }

  /** Once the event's links are gone, the sponsor DELETEs all pass the
      foreign key exactly when no other event links any of those sponsors. */
  lemma SponsorsDeletable(db: Db, id: int)
    requires Valid(db)
    ensures var db1 := db.(eventSponsors := db.eventSponsors.Delete(LinkIdsOf(db, id)));
            var ids := Project(LinksOf(db, id), (l: EventSponsor) => l.sponsorId);
            (forall i :: 0 <= i < |ids| ==> !SponsorReferenced(db1, ids[i])) <==> !SponsorShared(db, id)
  {
    var db1 := db.(eventSponsors := db.eventSponsors.Delete(LinkIdsOf(db, id)));
    var p := (l: EventSponsor) => l.eventId == id;
    var links := LinksOf(db, id);
    var ids := Project(links, (l: EventSponsor) => l.sponsorId);
    var rows := db.eventSponsors.rows;
    if i :| 0 <= i < |ids| && SponsorReferenced(db1, ids[i]) {
      var m :| m in db1.eventSponsors.rows && db1.eventSponsors.rows[m].sponsorId == ids[i];
      WhereRowsAt(db.eventSponsors, p, i);
      var l := links[i].id;
      assert l in rows && rows[l].eventId == id && rows[m].eventId != id && rows[m].sponsorId == rows[l].sponsorId;
    }
    if SponsorShared(db, id) {
      var l, m :| && l in rows && m in rows && rows[l].eventId == id && rows[m].eventId != id
                  && rows[m].sponsorId == rows[l].sponsorId;
      ScanHas(rows, 1, db.eventSponsors.next, l);
      var j :| 0 <= j < |Rows(db.eventSponsors)| && Rows(db.eventSponsors)[j] == Row(l, rows[l]);
      assert Row(l, rows[l]) in links;
      var i :| 0 <= i < |links| && links[i] == Row(l, rows[l]);
      assert ids[i] == rows[l].sponsorId;
      assert m in db1.eventSponsors.rows;
      assert SponsorReferenced(db1, ids[i]);
    }
  }

  lemma DeleteTwice<R>(t: Table<R>, a: set<int>, b: set<int>)
    ensures t.Delete(a).Delete(b) == t.Delete(a + b)
  {
    assert t.rows - a - b == t.rows - (a + b);
  }

  /** Without a fault the link block deletes the event's links and every
      sponsor they name, and it goes through exactly when no such sponsor is
      linked to another event. */
  lemma DropLinksExact(db: Db, k: nat, id: int)
    requires Valid(db)
    ensures var r := DropLinks(db, Plan(None), k, id);
            && (r.Some? <==> !SponsorShared(db, id))
            && (r.Some? ==> r.value.db == db.(eventSponsors := db.eventSponsors.Delete(LinkIdsOf(db, id)),
                                             sponsors := db.sponsors.Delete(DoomedSponsors(db, id))))
  {
    CollectedSponsors(db, id);
    SponsorsDeletable(db, id);
  }

  /** Without a fault the host block deletes the event's host links and
      every person they name. */
  lemma DropHostsExact(db: Db, k: nat, id: int)
    requires db.hosts.Valid() && AllFit(db.hosts, HostFits)
    ensures var r := DropHosts(db, Plan(None), k, id);
            && r.Some?
            && r.value.db == db.(hosts := db.hosts.Delete(HostIdsOf(db, id)), persons := db.persons.Delete(HostPersons(db, id)))
  {
    CollectedHostPersons(db, id);
  }

  /** Without a fault the attendee block goes through exactly when the stamp
      reads as a timestamp, and deletes the attendees holding it and every
      person they name. */
  lemma DropAttendeesExact(db: Db, env: Env, k: nat, stamp: string)
    requires db.attendees.Valid() && AllFit(db.attendees, AttendeeFits)
    ensures var r := DropAttendees(db, env, Plan(None), k, stamp);
            && (r.Some? <==> env.timestamp(stamp).Some?)
            && (r.Some? ==>
                  var ts := env.timestamp(stamp).value;
                  r.value.db == db.(attendees := db.attendees.Delete(AttendeeIdsAt(db, ts)),
                                    persons := db.persons.Delete(AttendeePersons(db, ts))))
  {
    if env.timestamp(stamp).Some? {
      CollectedAttendeePersons(db, env.timestamp(stamp).value);
    }
  }

  /** The same for the guest block. */
  lemma DropGuestsExact(db: Db, env: Env, k: nat, stamp: string)
    requires db.invitedGuests.Valid() && AllFit(db.invitedGuests, InvitedGuestFits)
    ensures var r := DropGuests(db, env, Plan(None), k, stamp);
            && (r.Some? <==> env.timestamp(stamp).Some?)
            && (r.Some? ==>
                  var gs := env.timestamp(stamp).value;
                  r.value.db == db.(invitedGuests := db.invitedGuests.Delete(GuestIdsAt(db, gs)),
                                    persons := db.persons.Delete(GuestPersons(db, gs))))
  {
    if env.timestamp(stamp).Some? {
      CollectedGuestPersons(db, env.timestamp(stamp).value);
    }
  }

  /** Without a storage fault, deleting an existing event succeeds exactly
      when both its stamps read as timestamps and none of its sponsors is
      linked to another event; it then leaves the reference state. */
  lemma DeleteSucceedsIff(db: Db, env: Env, rawId: string)
    requires Valid(db) && env.parseInt(rawId).Some?
    requires IsInt4(env.parseInt(rawId).value) && env.parseInt(rawId).value in db.events.rows
    ensures var id := env.parseInt(rawId).value;
            var e := db.events.rows[id];
            var r := DeleteWithDependents(db, env, Plan(None), rawId);
            && (r.reply.Success? <==>
                  env.timestamp(e.ticketStamp).Some? && env.timestamp(e.invitationStamp).Some? && !SponsorShared(db, id))
            && (r.reply.Success? ==>
                  r.db == Cascaded(db, id, env.timestamp(e.ticketStamp).value, env.timestamp(e.invitationStamp).value))
  {
    var plan := Plan(None);
    var id := env.parseInt(rawId).value;
    var e := db.events.rows[id];
    DropLinksExact(db, 1, id);
    if SponsorShared(db, id) {
      return;
    }
    var s1 := DropLinks(db, plan, 1, id).value;
    DropHostsExact(s1.db, s1.next, id);
    var s2 := DropHosts(s1.db, plan, s1.next, id).value;
    assert HostPersons(s1.db, id) == HostPersons(db, id);
    DropAttendeesExact(s2.db, env, s2.next, e.ticketStamp);
    if env.timestamp(e.ticketStamp).None? {
      return;
    }
    var ts := env.timestamp(e.ticketStamp).value;
    var s3 := DropAttendees(s2.db, env, plan, s2.next, e.ticketStamp).value;
    assert AttendeePersons(s2.db, ts) == AttendeePersons(db, ts);
    assert AttendeeIdsAt(s2.db, ts) == AttendeeIdsAt(db, ts);
    DropGuestsExact(s3.db, env, s3.next, e.invitationStamp);
    if env.timestamp(e.invitationStamp).None? {
      return;
    }
    var gs := env.timestamp(e.invitationStamp).value;
    var s4 := DropGuests(s3.db, env, plan, s3.next, e.invitationStamp).value;
    assert GuestPersons(s3.db, gs) == GuestPersons(db, gs);
    assert GuestIdsAt(s3.db, gs) == GuestIdsAt(db, gs);
    assert !EventReferenced(s4.db, id);
    DeleteTwice(db.persons, HostPersons(db, id), AttendeePersons(db, ts));
    DeleteTwice(db.persons, HostPersons(db, id) + AttendeePersons(db, ts), GuestPersons(db, gs));
    assert s4.db.persons == db.persons.Delete(HostPersons(db, id) + AttendeePersons(db, ts) + GuestPersons(db, gs));
  }

  /** After a successful delete the event is gone with its links, their
      sponsors and its host links, and so is every attendee stamped with its
      ticket stamp and every guest stamped with its invitation stamp, of
      whichever event; every person any of those rows named is gone too,
      even one another event still names. Venues are untouched. */
  lemma DeleteRemoves(db: Db, env: Env, rawId: string)
    requires Valid(db) && env.parseInt(rawId).Some?
    requires DeleteWithDependents(db, env, Plan(None), rawId).reply.Success?
    ensures var id := env.parseInt(rawId).value;
            var e := db.events.rows[id];
            var ts := env.timestamp(e.ticketStamp).value;
            var gs := env.timestamp(e.invitationStamp).value;
            var after := DeleteWithDependents(db, env, Plan(None), rawId).db;
            && id !in after.events.rows
            && after.venues == db.venues
            && (forall l :: l in after.eventSponsors.rows ==> after.eventSponsors.rows[l].eventId != id)
            && (forall l :: l in db.eventSponsors.rows && db.eventSponsors.rows[l].eventId == id ==>
                  db.eventSponsors.rows[l].sponsorId !in after.sponsors.rows)
            && (forall h :: h in after.hosts.rows ==> after.hosts.rows[h].eventId != id)
            && (forall h :: h in db.hosts.rows && db.hosts.rows[h].eventId == id ==>
                  db.hosts.rows[h].personId !in after.persons.rows)
            && (forall a :: a in after.attendees.rows ==> after.attendees.rows[a].ticketStamp != ts)
            && (forall a :: a in db.attendees.rows && db.attendees.rows[a].ticketStamp == ts ==>
                  db.attendees.rows[a].personId !in after.persons.rows)
            && (forall g :: g in after.invitedGuests.rows ==> after.invitedGuests.rows[g].invitationStamp != gs)
            && (forall g :: g in db.invitedGuests.rows && db.invitedGuests.rows[g].invitationStamp == gs ==>
                  db.invitedGuests.rows[g].personId !in after.persons.rows)
  {
    var id := env.parseInt(rawId).value;
    DeleteSucceedsIff(db, env, rawId);
  }

  /** An id that names no event is a 404 that changes nothing. */
  lemma DeleteAbsentNotFound(db: Db, env: Env, plan: Plan, rawId: string)
    requires env.parseInt(rawId).Some? && IsInt4(env.parseInt(rawId).value)
    requires !plan.Raises(0) && env.parseInt(rawId).value !in db.events.rows
    ensures DeleteWithDependents(db, env, plan, rawId) == Step(db, Failure(NotFound))
  {
  }

  /** A sponsor shared with another event makes the transaction fail: 400,
      and everything it had deleted is restored. */
  lemma DeleteSharedSponsorFails(db: Db, env: Env, rawId: string)
    requires Valid(db) && env.parseInt(rawId).Some?
    requires IsInt4(env.parseInt(rawId).value) && env.parseInt(rawId).value in db.events.rows
    requires SponsorShared(db, env.parseInt(rawId).value)
    ensures DeleteWithDependents(db, env, Plan(None), rawId) == Step(db, Failure(BadRequest))
  {
    DeleteSucceedsIff(db, env, rawId);
  }

  /** The reference state keeps the schema's constraints, provided no
      surviving link names a deleted sponsor. */
  lemma CascadedValid(db: Db, id: int, ts: int, gs: int)
    requires Valid(db) && !SponsorShared(db, id)
    ensures Valid(Cascaded(db, id, ts, gs))
  {
  }

  /** Each block of the cascade that goes through under a fault plan
      reaches the same stage as without faults. */
  lemma LinksPlanIrrelevant(db: Db, plan: Plan, k: nat, id: int)
    requires DropLinks(db, plan, k, id).Some?
    ensures DropLinks(db, Plan(None), k, id) == DropLinks(db, plan, k, id)
  {
  }

  lemma HostsPlanIrrelevant(db: Db, plan: Plan, k: nat, id: int)
    requires DropHosts(db, plan, k, id).Some?
    ensures DropHosts(db, Plan(None), k, id) == DropHosts(db, plan, k, id)
  {
  }

  lemma AttendeesPlanIrrelevant(db: Db, env: Env, plan: Plan, k: nat, stamp: string)
    requires DropAttendees(db, env, plan, k, stamp).Some?
    ensures DropAttendees(db, env, Plan(None), k, stamp) == DropAttendees(db, env, plan, k, stamp)
  {
  }

  lemma GuestsPlanIrrelevant(db: Db, env: Env, plan: Plan, k: nat, stamp: string)
    requires DropGuests(db, env, plan, k, stamp).Some?
    ensures DropGuests(db, env, Plan(None), k, stamp) == DropGuests(db, env, plan, k, stamp)
  {
  }

  /** A cascade that goes through under any fault plan has reached the same
      state as one without faults: faults only decide whether it finishes. */
  lemma CascadePlanIrrelevant(db: Db, env: Env, plan: Plan, id: int, e: Event)
    requires Cascade(db, env, plan, id, e).Some?
    ensures Cascade(db, env, Plan(None), id, e) == Cascade(db, env, plan, id, e)
  {
    var s1 := DropLinks(db, plan, 1, id).value;
    LinksPlanIrrelevant(db, plan, 1, id);
    var s2 := DropHosts(s1.db, plan, s1.next, id).value;
    HostsPlanIrrelevant(s1.db, plan, s1.next, id);
    var s3 := DropAttendees(s2.db, env, plan, s2.next, e.ticketStamp).value;
    AttendeesPlanIrrelevant(s2.db, env, plan, s2.next, e.ticketStamp);
    GuestsPlanIrrelevant(s3.db, env, plan, s3.next, e.invitationStamp);
  }

  /** Whatever the outcome, a delete leaves a state that satisfies the
      schema's constraints. */
  lemma DeletePreservesValid(db: Db, env: Env, plan: Plan, rawId: string)
    requires Valid(db)
    ensures Valid(DeleteWithDependents(db, env, plan, rawId).db)
  {
    var r := DeleteWithDependents(db, env, plan, rawId);
    if r.reply.Success? {
      var id := env.parseInt(rawId).value;
      var e := db.events.rows[id];
      CascadePlanIrrelevant(db, env, plan, id, e);
      DeleteSucceedsIff(db, env, rawId);
      CascadedValid(db, id, env.timestamp(e.ticketStamp).value, env.timestamp(e.invitationStamp).value);
    }
  }
}
