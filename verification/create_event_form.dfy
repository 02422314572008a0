/** The client-side logic of ed-events/src/routes/create-event.tsx: the form
    validator, the add/remove edits of the sponsor list, the optimistic
    update of the cached event list, and the body the form posts. */
module CreateEventForm {
  import opened Wrappers
  import opened Schema
  import opened Http
  import opened Store
  import opened EventRoutes

  // ======================================================= form and schema

  /** The capacity input goes through `parseInt`; None is NaN. */
  datatype VenueForm = VenueForm(name: string, province: string, town: string, address: string, capacity: Option<int>)
  datatype SponsorForm = SponsorForm(name: string, email: string, phone: string, sponsorshipAgreement: string)
  datatype HostForm = HostForm(firstName: string, lastName: string, dob: string, email: string, phone: string)
  datatype Form = Form(name: string, eventType: string, ticketStamp: string, invitationStamp: string,
                       venue: VenueForm, sponsors: seq<SponsorForm>, host: HostForm)

  predicate ValidVenueForm(v: VenueForm) {
    && |v.name| >= 1 && |v.province| >= 1 && |v.town| >= 1 && |v.address| >= 1
    && v.capacity.Some? && v.capacity.value >= 1
  }

  predicate ValidSponsorForm(env: Env, s: SponsorForm) {
    |s.name| >= 1 && env.isEmail(s.email) && |s.phone| >= 10 && |s.sponsorshipAgreement| >= 1
  }

  predicate ValidHostForm(env: Env, h: HostForm) {
    |h.firstName| >= 1 && |h.lastName| >= 1 && |h.dob| >= 1 && env.isEmail(h.email) && |h.phone| >= 10
  }

  /** `createEventSchema`. */
  predicate ValidForm(env: Env, f: Form) {
    && |f.name| >= 1 && |f.eventType| >= 1 && |f.ticketStamp| >= 1 && |f.invitationStamp| >= 1
    && ValidVenueForm(f.venue)
    && |f.sponsors| >= 1 && (forall i :: 0 <= i < |f.sponsors| ==> ValidSponsorForm(env, f.sponsors[i]))
    && ValidHostForm(env, f.host)
  }

  // ================================================== sponsor list edits

  const BlankSponsor: SponsorForm := SponsorForm("", "", "", "")

  /** `defaultValues.sponsors`. */
  function InitialSponsors(): seq<SponsorForm> {
    [BlankSponsor]
  }

  datatype SponsorEdit = AddSponsor | RemoveSponsor(index: int)

  /** Add is always on screen; Remove is rendered beside entry `index` only when `index > 0`. */
  predicate Offered(sponsors: seq<SponsorForm>, edit: SponsorEdit) {
    edit.AddSponsor? || 0 < edit.index < |sponsors|
  }

  /** `xs.filter((_, i) => i !== index)`. */
  function Without<T>(xs: seq<T>, index: int): (r: seq<T>)
    ensures 0 <= index < |xs| ==> r == xs[..index] + xs[index + 1..]
    ensures !(0 <= index < |xs|) ==> r == xs
    decreases |xs|
  {
    if xs == [] then []
    else (if index == 0 then [] else [xs[0]]) + Without(xs[1..], index - 1)
  }

  function Apply(sponsors: seq<SponsorForm>, edit: SponsorEdit): seq<SponsorForm> {
    match edit
    case AddSponsor => sponsors + [BlankSponsor]
    case RemoveSponsor(i) => Without(sponsors, i)
  }

  /** A run of clicks; a Remove that is not on screen cannot be clicked and changes nothing. */
  function ApplyAll(sponsors: seq<SponsorForm>, edits: seq<SponsorEdit>): seq<SponsorForm>
    decreases |edits|
  {
    if edits == [] then sponsors
    else
      var next := if Offered(sponsors, edits[0]) then Apply(sponsors, edits[0]) else sponsors;
      ApplyAll(next, edits[1..])
  }

  // ==================================================== optimistic cache

  /** The `['events']` query cache after `onMutate`, and the context it returns. */
  datatype Mutation<E> = Mutation(cache: Option<seq<E>>, previous: Option<seq<E>>)

  /** `onMutate`: append the new event to the cached list (or to `[]`) and
      hand back the list as it was. The new event is shown last, after every
      cached event in its old place, and `onError` can put a cached list back. */
  function OnMutate<E>(cache: Option<seq<E>>, newEvent: E): (r: Mutation<E>)
    ensures r.cache.Some? && |r.cache.value| == |cache.GetOr([])| + 1
    ensures r.cache.value[|r.cache.value| - 1] == newEvent
    ensures forall i :: 0 <= i < |cache.GetOr([])| ==> r.cache.value[i] == cache.GetOr([])[i]
    ensures cache.Some? ==> OnError(r.cache, r.previous) == cache
  {
    Mutation(Some(cache.GetOr([]) + [newEvent]), cache)
  }

  /** `onError`: put back the previous list when there was one (an empty
      array is truthy, so only `undefined` keeps the optimistic entry). */
  function OnError<E>(cache: Option<seq<E>>, previous: Option<seq<E>>): Option<seq<E>> {
    if previous.Some? then previous else cache
  }

  // ======================================================= posted body

  /** `JSON.stringify(data)` of a submitted form: the same fields, and no `venueId`. */
  function RequestBody(f: Form): CreateBody
    requires f.venue.capacity.Some?
  {
    CreateBody(
      EventBody(f.name, f.eventType, None, f.ticketStamp, f.invitationStamp),
      VenueBody(f.venue.name, f.venue.province, f.venue.town, f.venue.address, f.venue.capacity.value),
      seq(|f.sponsors|, i requires 0 <= i < |f.sponsors| =>
        SponsorInput(f.sponsors[i].name, f.sponsors[i].email, f.sponsors[i].phone, f.sponsors[i].sponsorshipAgreement)),
      HostInput(f.host.firstName, f.host.lastName, f.host.dob, f.host.email, f.host.phone))
  }
}
