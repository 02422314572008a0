# Event manager: a Dafny model of its data logic

This project models the request handlers of the event-manager server (Hono
routes over a PostgreSQL schema declared with Drizzle) and the logic of its
create-event page, and proves what each handler does to the stored rows.

- **Store** (`tables.dfy`, `schema.dfy`, `store.dfy`). There is one table per
  schema file: events, venues, sponsors, event-sponsor links, host links,
  persons, attendees and invited guests.
  - A table is a finite map from serial ids to records, plus the sequence's
    next value.
  - Column constraints (`varchar(n)` widths, `integer` range, NOT NULL) are
    per-row predicates.
  - The two declared foreign keys (link → sponsor, link → event) and "every
    id lies below the sequence" form the invariant `Store.Valid`.
- **Statements.** Each database statement a handler issues has an index.
  - A fault plan `Plan(raiseAt)` can make any one of them throw, which stands
    in for a lost connection or any other storage error.
  - A statement also throws when the database would refuse it: a width or
    range violation, a NULL phone, a stamp refused where a `timestamp` is
    bound, or a foreign-key violation. Whether a stamp is accepted there is
    the abstract `Env.timestamp`; see "Left out" for what the Drizzle
    version in use does.
- **Handlers** (`events.dfy`, `tickets.dfy`, `invitations.dfy`). Each is a
  pure function from a store and a request to a new store and a reply
  (`Step`):
  - Create is not transactional, so the rows written before a fault stay.
  - Delete runs in a transaction, so a fault restores the original store.
  - Create and delete turn every exception into a 400; the other handlers
    leave it to the framework, which answers 500.
- **Client** (`create_event_form.dfy`). This covers:
  - the page's form schema;
  - the add/remove edits of the sponsor list;
  - the optimistic update of the cached event list and its rollback;
  - the body the page posts.
- **Facts** (`store_facts.dfy`, `event_facts.dfy`, `ticket_facts.dfy`,
  `invitation_facts.dfy`, `form_facts.dfy`). These state each handler's exact
  effect against an independent reference (success conditions in both
  directions, the resulting store, what is left untouched) and prove that
  every handler keeps `Store.Valid`.

Behaviour of the code a reader may not expect:

- Buying a ticket (or sending an invitation) for an event that does not
  exist does not give a 404. The code inserts the person, then dereferences
  the missing event and fails with a 500.
- Returning a ticket does not delete the ticket holder's person row; only
  the attendee row goes.

Other behaviour of the code that the model keeps:

- The create-event page never sends a `venueId`, so the server refuses every
  form the page submits.
- The invitation list filters guests by the event's ticket stamp.
- Delete removes every person a deleted host, attendee or guest row names,
  and every attendee or guest of any event that shares a stamp.

## Model

| member | source | states |
|---|---|---|
| Tables.InsertFresh | server/db/schemas/events.ts:6 | a serial insert takes the sequence's next value, which no row holds; existing rows keep their ids and data and the table grows by exactly one row |
| Tables.RowsExact | server/routes/events.ts:42 | a plain SELECT yields every row of the table exactly once, each with its stored data, in ascending id order |
| Tables.InsertAllRows | server/routes/events.ts:233-243 | a run of inserts leaves the old rows followed by the new ones, numbered consecutively from the sequence's next value |
| Tables.SelectedValues | server/routes/events.ts:374-376 | selecting one column over a WHERE filter yields exactly the column values of the rows that match |
| StoreFacts.InsertVenueValid | server/db/schemas/venue.ts:5-12 | an accepted venue insert keeps every stored row within its column constraints and every id below the sequence |
| StoreFacts.InsertSponsorValid | server/db/schemas/sponsor.ts:5-10 | an accepted sponsor insert keeps the store valid |
| StoreFacts.InsertEventValid | server/db/schemas/events.ts:5-12 | an accepted event insert keeps the store valid |
| StoreFacts.InsertHostValid | server/db/schemas/host.ts:5-9 | an accepted host-link insert keeps the store valid |
| StoreFacts.InsertEventSponsorValid | server/db/schemas/event_sponsor.ts:7-12 | a link insert goes through only when its sponsor and event exist, so both foreign keys keep holding |
| StoreFacts.InsertPersonValid | server/db/schemas/person.ts:5-12 | an accepted person insert keeps the store valid |
| StoreFacts.InsertPersonOrIgnoreNeverIgnores | server/routes/tickets.ts:33 | in a valid store the conflict clause never fires (the id is the only unique column), so insert-or-ignore is the plain insert and returns the new id |
| StoreFacts.InsertAttendeeValid | server/db/schemas/attendee.ts:5-9 | an accepted attendee insert keeps the store valid |
| StoreFacts.InsertInvitedGuestValid | server/db/schemas/invited_guest.ts:5-9 | an accepted guest insert keeps the store valid |
| StoreFacts.DeleteSponsorValid | server/db/schemas/event_sponsor.ts:9 | a sponsor delete goes through only when no link names the sponsor, and it keeps the store valid |
| StoreFacts.DeleteEventValid | server/db/schemas/event_sponsor.ts:10 | an event delete goes through only when no link names the event, and it keeps the store valid |
| StoreFacts.DeletePersonValid | server/db/schemas/host.ts:5-9 | deleting a person keeps the store valid even while host, attendee or guest rows still name it, since no foreign key guards persons |
| StoreFacts.WithPersonsSound | server/routes/tickets.ts:19-20 | every row of an inner join with persons is an input row whose person exists, paired with that person |
| StoreFacts.WithPersonsComplete | server/routes/tickets.ts:19-20 | every input row whose person exists appears in the inner join, paired with its person |
| EventRoutes.ListEvents | server/routes/events.ts:41-45 | listing never changes the store and fails only with a 500 |
| EventRoutes.GetDetail | server/routes/events.ts:107-111 | the detail handler never changes the store, and an id that parses to NaN is a 404 |
| EventRoutes.InsertSponsors | server/routes/events.ts:233-243 | the sponsor inserts all succeed exactly when no fault hits them, every sponsor fits its columns and the sequence has room; they then add exactly the sponsor rows under consecutive new ids, and only the sponsors table changes |
| EventRoutes.InsertLinks | server/routes/events.ts:274-282 | the link inserts all succeed exactly when no fault hits them and every link fits and names an existing sponsor and event; only the link table changes |
| EventRoutes.Create | server/routes/events.ts:285-288 | every create failure is a 400, and a body the event schema refuses writes nothing |
| EventRoutes.CreateHosted | server/routes/events.ts:245-284 | the part of a create after the sponsors fails only with a 400 and never touches venues or sponsors |
| EventRoutes.Update | server/routes/events.ts:320-330 | an update touches only the events table and never adds or removes an event; a body the schema refuses is a 422 and a NaN id a 400, both with nothing changed |
| EventRoutes.DeleteSponsors | server/routes/events.ts:378-380 | the sponsor deletes succeed exactly when no fault hits them, every id is an int4 and no link names a listed sponsor, and they then remove exactly the listed sponsors |
| EventRoutes.DeletePersons | server/routes/events.ts:387-389 | the person deletes succeed exactly when no fault hits them and every id is an int4, and they then remove exactly the listed persons |
| EventRoutes.Cascade | server/routes/events.ts:372-411 | the delete transaction never touches venues |
| EventRoutes.DropLinks | server/routes/events.ts:374-380 | if the first step of the transaction goes through, it has removed exactly the event's sponsor links and touched only links and sponsors |
| EventRoutes.DropHosts | server/routes/events.ts:383-389 | if the host step goes through, it has touched only hosts and persons |
| EventRoutes.DropAttendees | server/routes/events.ts:392-398 | if the attendee step goes through, it has touched only attendees and persons |
| EventRoutes.DropGuests | server/routes/events.ts:401-407 | if the guest step goes through, it has touched only invited guests and persons |
| EventRoutes.DeleteWithDependents | server/routes/events.ts:358-418 | a failed delete leaves the store as it was and venues are never touched; a NaN id is a 404, and the only failures are 404 and 400: a fault at the fetch, an id outside `integer`, or a cascade that does not go through is a 400 with nothing changed |
| EventFacts.ListEventsExact | server/routes/events.ts:41-45 | listing succeeds exactly when its statement does not fault, and then returns every event exactly once, in ascending id order |
| EventFacts.CrossSponsorCount | server/routes/events.ts:122-126 | the left joins repeat every sponsor once per host link, so the non-null sponsors of the joined rows number links-with-a-sponsor times host rows |
| EventFacts.DetailReply | server/routes/events.ts:107-139 | detail is a 404 exactly for a NaN id or a missing event, and a 500 exactly for a fault or an id out of int4 range; on success it returns the event row, its venue if one exists, the person of the first host link, and the sponsors counted as above |
| EventFacts.DetailSponsorsOneHost | server/routes/events.ts:128-138 | with at most one host link the detail's sponsors are exactly the event's linked sponsors, in link order, so k links give k sponsors |
| EventFacts.CreateSucceedsIff | server/routes/events.ts:220-284 | create succeeds exactly when none of its 2n+4 statements faults and every row it writes fits; the store is then the reference store with one venue, n sponsors, one person, one event, one host link and n links added, and the reply is the new event id |
| EventFacts.CreateHostedExact | server/routes/events.ts:245-284 | once the sponsors are in, the rest of a create succeeds exactly when none of its statements faults and the host person, event and links fit and have ids; it then adds the person, the event, the host link from that person to that event and link i to sponsor i, and answers with the new event id |
| EventFacts.CreatedRecords | server/routes/events.ts:222-271 | the reference store holds the new venue, host person, event (pointing at that venue, with the body's stamps) and host link under the next ids |
| EventFacts.CreatedSponsorsAndLinks | server/routes/events.ts:232-282 | in the reference store sponsor i sits under the i-th new sponsor id and link i joins that sponsor to the new event with sponsor i's agreement |
| EventFacts.CreateOnlyAdds | server/routes/events.ts:196-288 | whatever the outcome, create only adds rows: every existing row of every table is still there with the same data |
| EventFacts.InsertSponsorsValid | server/routes/events.ts:233-243 | accepted sponsor inserts keep the store valid |
| EventFacts.InsertLinksValid | server/routes/events.ts:274-282 | accepted link inserts keep the store valid |
| EventFacts.CreatePreservesValid | server/routes/events.ts:222-288 | whatever the outcome, create leaves a valid store |
| EventFacts.CreateKeepsVenueOnLaterFault | server/routes/events.ts:222-288 | a fault in any statement after the venue insert is a 400 that still leaves the new venue stored: create is not atomic |
| EventFacts.CreateOrphansEventOnHostLinkFault | server/routes/events.ts:267-288 | a fault in the host-link insert is a 400 that leaves the venue, sponsors, person and event written, with no host link and no sponsor link |
| EventFacts.SponsorsOneFault | server/routes/events.ts:233-243 | a fault at sponsor insert i fails the batch, yet every other sponsor is still stored, in order, under consecutive ids, and nothing but sponsors changes |
| EventFacts.LinksOneFault | server/routes/events.ts:274-282 | a fault at link insert i fails the batch, yet every other link is still stored, in order, under consecutive ids, and nothing but links changes |
| EventFacts.CreateHostedFault | server/routes/events.ts:245-284 | once the sponsors are in, a fault at the host person, event, host link or a sponsor link insert is a 400 that keeps exactly the rows the earlier statements wrote |
| EventFacts.CreateFaultLeavesPrefix | server/routes/events.ts:220-288 | with every row fitting, a fault at statement k of a create is a 400 and leaves exactly what came before: nothing for the venue; the venue and every other sponsor for sponsor i; the venue and all sponsors for the host person; also the person for the event; also the event for the host link; also the host link and every other link for link i |
| EventFacts.UpdateEffect | server/routes/events.ts:321-329 | with a valid body, update succeeds exactly when nothing faults, the ids are int4 and the new row fits if the event exists; it then overwrites only that event's fields, and an absent id is a 200 with nothing changed |
| EventFacts.UpdatePreservesValid | server/routes/events.ts:328 | update leaves a valid store |
| EventFacts.UpdateMayDangle | server/db/schemas/events.ts:9 | an update can point an event at a venue id no venue has, since `venueId` is not a foreign key |
| EventFacts.CollectedSponsors | server/routes/events.ts:374-376 | the selected sponsor ids are exactly the sponsors linked to the event |
| EventFacts.CollectedHostPersons | server/routes/events.ts:383-385 | the selected person ids are exactly the persons of the event's host links |
| EventFacts.CollectedAttendeePersons | server/routes/events.ts:392-394 | the selected person ids are exactly the persons of the attendees holding the stamp |
| EventFacts.CollectedGuestPersons | server/routes/events.ts:401-403 | the selected person ids are exactly the persons of the guests holding the stamp |
| EventFacts.SponsorsDeletable | server/routes/events.ts:377-380 | once the event's links are gone, its sponsors can all be deleted exactly when none is linked to another event |
| EventFacts.DeleteSucceedsIff | server/routes/events.ts:372-413 | without a fault, deleting an existing event succeeds exactly when both stamps read as timestamps and no sponsor of the event is shared, and the result is the reference cascade |
| EventFacts.DeleteRemoves | server/routes/events.ts:373-410 | after a delete the event, its links and their sponsors, its host links, and every attendee and guest with its stamps (of any event) are gone, and so is every person they named; venues are untouched |
| EventFacts.DeleteAbsentNotFound | server/routes/events.ts:366-369 | an id that names no event is a 404 with nothing changed |
| EventFacts.DeleteSharedSponsorFails | server/routes/events.ts:378-379 | a sponsor shared with another event makes the delete a 400 with the store restored |
| EventFacts.DropLinksExact | server/routes/events.ts:374-380 | without faults the link step goes through exactly when none of the event's sponsors is linked to another event, and then it has removed exactly the event's links and their sponsors |
| EventFacts.DropHostsExact | server/routes/events.ts:383-389 | without faults the host step always goes through and removes exactly the event's host links and their persons |
| EventFacts.DropAttendeesExact | server/routes/events.ts:392-398 | without faults the attendee step goes through exactly when the event's ticket stamp reads as a timestamp, and then removes exactly the attendees with that stamp and their persons |
| EventFacts.DropGuestsExact | server/routes/events.ts:401-407 | without faults the guest step goes through exactly when the event's invitation stamp reads as a timestamp, and then removes exactly the guests with that stamp and their persons |
| EventFacts.LinksPlanIrrelevant | server/routes/events.ts:374-380 | a link step that goes through has the same result as one with no fault planned |
| EventFacts.HostsPlanIrrelevant | server/routes/events.ts:383-389 | a host step that goes through has the same result as one with no fault planned |
| EventFacts.AttendeesPlanIrrelevant | server/routes/events.ts:392-398 | an attendee step that goes through has the same result as one with no fault planned |
| EventFacts.GuestsPlanIrrelevant | server/routes/events.ts:401-407 | a guest step that goes through has the same result as one with no fault planned |
| EventFacts.CascadedValid | server/routes/events.ts:372-411 | the reference cascade leaves a valid store |
| EventFacts.CascadePlanIrrelevant | server/routes/events.ts:372-411 | a cascade that goes through reaches the same store whatever the fault plan |
| EventFacts.DeletePreservesValid | server/routes/events.ts:358-418 | whatever the outcome, delete leaves a valid store |
| TicketRoutes.ListTickets | server/routes/tickets.ts:11-24 | listing tickets never changes the store and fails only with a 500 |
| TicketRoutes.BuyTicket | server/routes/tickets.ts:27-43 | a purchase touches only persons and attendees; a body the person schema refuses is a 400 with nothing changed, and every other failure is a 500 |
| TicketRoutes.ReturnTicket | server/routes/tickets.ts:46-51 | returning a ticket touches only attendees, and a failure changes nothing |
| TicketRoutes.EditTicket | server/routes/tickets.ts:54-61 | editing touches only the attendee rows' contents, never which ids exist; a failure changes nothing, and a body the attendee schema refuses is a 400 |
| TicketFacts.AttendeeJoinExact | server/routes/tickets.ts:14-21 | the join lists exactly the attendee rows with the stamp whose person exists, each paired with its person |
| TicketFacts.ListTicketsExact | server/routes/tickets.ts:11-24 | listing succeeds exactly when the event exists, nothing faults and its ticket stamp reads as a timestamp, and then returns exactly the ticket holders of that stamp; a missing event is a 500 |
| TicketFacts.BuyEffect | server/routes/tickets.ts:27-43 | with a valid body a purchase succeeds exactly when the event exists, nothing faults, the person fits and the stamp reads; it then adds exactly one person and one attendee holding the new person id and the event's ticket stamp |
| TicketFacts.BuyUnknownEventLeavesPerson | server/routes/tickets.ts:29-40 | buying for a missing event inserts the person and then fails with a 500, adding no attendee |
| TicketFacts.BuyWithoutPhoneFails | server/db/schemas/person.ts:11-20 | a body without a phone passes the schema but not the NOT NULL column: a 500 with nothing written |
| TicketFacts.BuyThenList | server/routes/tickets.ts:14-40 | after a purchase, listing the same event succeeds and ends with the new ticket holder |
| TicketFacts.ReturnEffect | server/routes/tickets.ts:46-51 | returning succeeds exactly for an existing int4 id without a fault, deletes exactly that attendee and no person, and an absent id is a 404 with nothing changed |
| TicketFacts.EditEffect | server/routes/tickets.ts:54-61 | editing overwrites exactly that attendee's person id and stamp and leaves persons alone; an absent id is a 404 with nothing changed |
| TicketFacts.TicketsPreserveValid | server/routes/tickets.ts:27-61 | buying, returning and editing all leave a valid store |
| InvitationRoutes.ListInvitations | server/routes/invitation.ts:11-24 | listing invitations never changes the store and fails only with a 500 |
| InvitationRoutes.SendInvitation | server/routes/invitation.ts:26-41 | sending touches only persons and guests; a body the person schema refuses is a 400 with nothing changed, and every other failure is a 500 |
| InvitationRoutes.CancelInvitation | server/routes/invitation.ts:44-49 | cancelling touches only guests, and a failure changes nothing |
| InvitationRoutes.EditInvitation | server/routes/invitation.ts:52-59 | editing touches only the guest rows' contents, never which ids exist; a failure changes nothing, and a body the guest schema refuses is a 400 |
| InvitationFacts.GuestJoinExact | server/routes/invitation.ts:14-21 | the join lists exactly the guest rows with the stamp whose person exists, each paired with its person |
| InvitationFacts.ListInvitationsExact | server/routes/invitation.ts:11-24 | listing succeeds exactly when the event exists, nothing faults and its ticket stamp reads as a timestamp, and then returns exactly the guests whose invitation stamp equals the event's ticket stamp |
| InvitationFacts.SendEffect | server/routes/invitation.ts:26-41 | with a valid body a send succeeds exactly when the event exists, nothing faults, the person fits and the invitation stamp reads; it then adds exactly one person and one guest holding the new person id and the event's invitation stamp |
| InvitationFacts.SendUnknownEventLeavesPerson | server/routes/invitation.ts:29-38 | inviting to a missing event inserts the person and then fails with a 500, adding no guest |
| InvitationFacts.SendWithoutPhoneFails | server/routes/invitation.ts:31 | a body without a phone is a 500 with nothing written |
| InvitationFacts.SendThenList | server/routes/invitation.ts:21-38 | after a send, listing the event succeeds, and the new guest is on the list exactly when the event's ticket and invitation stamps denote the same instant |
| InvitationFacts.CancelEffect | server/routes/invitation.ts:44-49 | cancelling succeeds exactly for an existing int4 id without a fault, deletes exactly that guest and no person, and an absent id is a 404 with nothing changed |
| InvitationFacts.EditInvitationEffect | server/routes/invitation.ts:52-59 | editing overwrites exactly that guest's person id and stamp and leaves persons alone; an absent id is a 404 with nothing changed |
| InvitationFacts.InvitationsPreserveValid | server/routes/invitation.ts:26-59 | sending, cancelling and editing all leave a valid store |
| CreateEventForm.Without | ed-events/src/routes/create-event.tsx:338 | filtering out index i leaves the entries before i followed by those after it, and an index outside the list changes nothing |
| CreateEventForm.OnMutate | ed-events/src/routes/create-event.tsx:90-104 | the optimistic list is one longer than the cached list (or the empty list), keeps every cached event in its place and shows the new event last, and when a list was cached `onError` with the returned context puts exactly that list back |
| FormFacts.WithoutDropsOne | ed-events/src/routes/create-event.tsx:336-338 | removing entry i shortens the list by one and removes exactly that entry from its multiset |
| FormFacts.WithoutKeepsOrder | ed-events/src/routes/create-event.tsx:338 | the entries left keep their order: those before i in place, those after it shifted down by one |
| FormFacts.RemoveOffered | ed-events/src/routes/create-event.tsx:331-339 | a Remove that is on screen deletes one entry other than the first, so at least one entry remains |
| FormFacts.AddThenRemoveRestores | ed-events/src/routes/create-event.tsx:350-353 | Add appends one blank entry and leaves the others unchanged, and removing that entry again restores the list |
| FormFacts.EditsKeepFirst | ed-events/src/routes/create-event.tsx:331-353 | any run of clicks keeps a non-empty sponsor list non-empty and keeps its first entry |
| FormFacts.FormAlwaysHasSponsor | ed-events/src/routes/create-event.tsx:67-69 | the list starts as one blank entry, and no run of clicks can empty it |
| FormFacts.RollbackRestores | ed-events/src/routes/create-event.tsx:105-111 | onError after onMutate restores a cached list, but with nothing cached the optimistic one-event list stays |
| FormFacts.FormRejects | ed-events/src/routes/create-event.tsx:34-59 | the form schema refuses an empty event or venue field, a missing capacity or one below 1, no sponsor, or a sponsor or host phone shorter than 10 characters |
| FormFacts.FormAccepts | ed-events/src/routes/create-event.tsx:34-59 | the converse: a form with every text field filled, a capacity of at least 1, at least one sponsor, phones of at least 10 characters and recognised email addresses passes the form schema |
| FormFacts.AcceptedFormStillRefused | ed-events/src/routes/create-event.tsx:75-82 | the body of an accepted form names a sponsor and meets `insertVenueSchema` (server/db/schemas/venue.ts:15-18, capacity at least 1), yet has no `venueId`, so it fails the server's event schema. No handler applies `insertVenueSchema`: create's nested venue schema (server/routes/events.ts:198-204) sets no minimum on capacity |
| FormFacts.SubmittedFormRejected | server/db/schemas/events.ts:18 | every body the page posts is a 400 from create, with nothing written |
| FormFacts.ServerAcceptsWhatFormRejects | server/routes/events.ts:197-220 | given a host with a date of birth PostgreSQL reads, the server stores an event with empty names, capacity 0 and no sponsors, which the page's form schema refuses |
| StampFacts.DeleteNeedsStamps | server/routes/events.ts:391-417 | when no string is accepted as a `timestamp`, deleting fails and leaves the store unchanged; for an existing event it is a 400, since the attendee step binds the ticket stamp |
| StampFacts.TicketsNeedStamps | server/routes/tickets.ts:11-61 | when no string is accepted as a `timestamp`, listing, buying and editing tickets all fail |
| StampFacts.InvitationsNeedStamps | server/routes/invitation.ts:11-59 | when no string is accepted as a `timestamp`, listing, sending and editing invitations all fail |

## Left out

- Authentication: the Kinde `getUser` middleware is taken as passed.
- HTTP wiring: routing and router precedence in the Hono app, logging, and OpenAPI documents.
  - Replies are reduced to a status and a payload.
  - JSON shape checks (a string where a number is expected, and so on) are not modelled: bodies are typed values.
- Library internals stay abstract functions in `Schema.Env`:
  - JavaScript `parseInt` and `Number`;
  - Zod's email and datetime checks;
  - PostgreSQL's `date` check;
  - the binding of a text stamp where a `timestamp` is expected (`Env.timestamp`).
- Text stamps for `timestamp` columns: `attendees.ticket_stamp` and `invited_guests.invitation_stamp` are Drizzle `timestamp` columns in the default Date mode. Their encoder calls `toISOString()` on the bound value, which a string does not have, so as written every string stamp throws before PostgreSQL sees it. That covers the stamps bound in server/routes/tickets.ts:21 and :38, server/routes/invitation.ts:21 and :36, server/routes/events.ts:394 and :403, and the ones written through `.set(data)` at server/routes/tickets.ts:58 and server/routes/invitation.ts:56. The model keeps `Env.timestamp` abstract. With this encoder it is None for every string (`StampFacts.NoTextStamps`), and then these never succeed: deleting an existing event (StampFacts.DeleteNeedsStamps), listing, buying and editing tickets (StampFacts.TicketsNeedStamps), and listing, sending and editing invitations (StampFacts.InvitationsNeedStamps).
- EventFacts.DeleteRemoves: says something only for a library that accepts text stamps; with the Drizzle encoder above no delete succeeds, so its requires cannot be met.
- TicketFacts.BuyThenList: says something only for a library that accepts text stamps; with the Drizzle encoder above no purchase succeeds.
- InvitationFacts.SendThenList: says something only for a library that accepts text stamps; with the Drizzle encoder above no invitation succeeds.
- Character counting: lengths are counts of `char`s, with no UTF-16 or encoding detail.
- The optional `id` field of the insert schemas is left out. It would let a body choose or rewrite a primary key; the model always takes the sequence's next value.
- A failed insert does not consume a sequence value; PostgreSQL's `nextval` does, and would leave gaps. The ids that EventFacts.SponsorsOneFault, EventFacts.LinksOneFault, EventFacts.CreateHostedFault and EventFacts.CreateFaultLeavesPrefix state for the rows stored after a failed insert hold only under this simplification. Which rows are stored, and their contents, do not depend on it.
- Row order: PostgreSQL promises none without ORDER BY. The model returns rows in ascending id order and the join in link-then-host order.
- Tables.RowsExact: states one admissible order, ascending id, rather than "any order".
- Concurrency:
  - The `Promise.all` fan-outs in create are modelled as sequential inserts in input order, each attempted even after an earlier one failed.
  - Concurrent requests, isolation levels and the connection pool are not modelled.
- UI: rendering, toasts, `cancelQueries`, `onSettled` and query invalidation, the loading flag, and the other pages.
- Schema refinements drizzle-zod derives from column types, beyond the ones written out in the schema files. Column widths are enforced at the database instead.
- EventFacts.DetailReply: states how many sponsors the detail lists for any number of host links. The exact sponsor rows are stated only for at most one host link, in EventFacts.DetailSponsorsOneHost.
- FormFacts.ServerAcceptsWhatFormRejects: exhibits one body, not the whole set of bodies the server accepts and the page refuses.
