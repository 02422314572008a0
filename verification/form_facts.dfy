/** What the create-event page promises: the first sponsor entry can never be
    removed, a rolled-back mutation restores the cached list, and — because
    the posted body carries no venue id — the server refuses every form the
    page submits, while accepting bodies the page itself would refuse. */
module FormFacts {
  import opened Wrappers
  import opened Schema
  import opened Http
  import opened Store
  import opened EventRoutes
  import opened CreateEventForm

  /** Removing entry `i` drops exactly that entry: the removed entry is the
      only one missing ... */
  lemma WithoutDropsOne<T>(xs: seq<T>, i: int)
    requires 0 <= i < |xs|
    ensures |Without(xs, i)| == |xs| - 1
    ensures multiset(Without(xs, i)) + multiset{xs[i]} == multiset(xs)
  {
    TakeOut(xs, i);
  }

  /** ... and the others keep their order. */
  lemma WithoutKeepsOrder<T>(xs: seq<T>, i: int)
    requires 0 <= i < |xs|
    ensures forall j :: 0 <= j < |xs| - 1 ==> Without(xs, i)[j] == if j < i then xs[j] else xs[j + 1]
  {
    assert Without(xs, i) == xs[..i] + xs[i + 1..];
  }

  /** Taking one entry out of a sequence takes it out of its multiset. */
  lemma TakeOut<T>(xs: seq<T>, i: int)
    requires 0 <= i < |xs|
    ensures multiset(xs) == multiset(xs[..i] + xs[i + 1..]) + multiset{xs[i]}
  {
    assert xs == xs[..i] + [xs[i]] + xs[i + 1..];
  }

  /** A Remove button on screen removes one entry and never the first, so at
      least one entry is left. */
  lemma RemoveOffered(xs: seq<SponsorForm>, i: int)
    requires Offered(xs, RemoveSponsor(i))
    ensures var r := Apply(xs, RemoveSponsor(i));
            && |r| == |xs| - 1 >= 1
            && r[0] == xs[0]
            && r == xs[..i] + xs[i + 1..]
  {
  }

  /** Add appends one blank entry behind the others, and removing that new
      last entry again restores the list. */
  lemma AddThenRemoveRestores(xs: seq<SponsorForm>)
    requires |xs| >= 1
    ensures |Apply(xs, AddSponsor)| == |xs| + 1
    ensures Apply(xs, AddSponsor)[..|xs|] == xs && Apply(xs, AddSponsor)[|xs|] == BlankSponsor
    ensures Offered(Apply(xs, AddSponsor), RemoveSponsor(|xs|))
    ensures Apply(Apply(xs, AddSponsor), RemoveSponsor(|xs|)) == xs
  {
    assert (xs + [BlankSponsor])[..|xs|] == xs;
  }

  /** Whatever the clicks, a non-empty list stays non-empty and keeps its
      first entry. */
  lemma {:induction false} EditsKeepFirst(xs: seq<SponsorForm>, edits: seq<SponsorEdit>)
    requires |xs| >= 1
    ensures |ApplyAll(xs, edits)| >= 1
    ensures ApplyAll(xs, edits)[0] == xs[0]
    decreases |edits|
  {
    if edits != [] {
      var next := if Offered(xs, edits[0]) then Apply(xs, edits[0]) else xs;
      if Offered(xs, edits[0]) {
        match edits[0]
        case AddSponsor =>
        case RemoveSponsor(i) => RemoveOffered(xs, i);
      }
      EditsKeepFirst(next, edits[1..]);
    }
  }

  /** The form therefore always shows at least the blank entry it starts with. */
  lemma FormAlwaysHasSponsor(edits: seq<SponsorEdit>)
    ensures |ApplyAll(InitialSponsors(), edits)| >= 1
    ensures ApplyAll(InitialSponsors(), edits)[0] == BlankSponsor
  {
    EditsKeepFirst(InitialSponsors(), edits);
  }

  /** `onError` undoes `onMutate`: a cached list comes back as it was; with
      nothing cached the optimistic list of the one new event stays. */
  lemma RollbackRestores<E>(cache: Option<seq<E>>, newEvent: E)
    ensures var m := OnMutate(cache, newEvent);
            OnError(m.cache, m.previous) == if cache.Some? then cache else Some([newEvent])
  {
    assert [] + [newEvent] == [newEvent];
  }

  /** The page's schema refuses a form with an empty event or venue field,
      an unreadable capacity or one below one, no sponsor, or a sponsor or
      host phone shorter than ten characters. */
  lemma FormRejects(env: Env, f: Form)
    requires || |f.name| == 0 || |f.eventType| == 0 || |f.ticketStamp| == 0 || |f.invitationStamp| == 0
             || |f.venue.name| == 0 || |f.venue.province| == 0 || |f.venue.town| == 0 || |f.venue.address| == 0
             || f.venue.capacity.None? || f.venue.capacity.value < 1
             || f.sponsors == [] || (exists i :: 0 <= i < |f.sponsors| && |f.sponsors[i].phone| < 10)
             || |f.host.phone| < 10
    ensures !ValidForm(env, f)
  {
  }

  /** The converse: a form with every text field filled, a capacity of at
      least one, at least one sponsor, phones of ten characters or more and
      email addresses the validator recognises is accepted. */
  lemma FormAccepts(env: Env, f: Form)
    requires && |f.name| >= 1 && |f.eventType| >= 1 && |f.ticketStamp| >= 1 && |f.invitationStamp| >= 1
             && |f.venue.name| >= 1 && |f.venue.province| >= 1 && |f.venue.town| >= 1 && |f.venue.address| >= 1
             && f.venue.capacity.Some? && f.venue.capacity.value >= 1
             && f.sponsors != []
             && (forall i :: 0 <= i < |f.sponsors| ==>
                   && |f.sponsors[i].name| >= 1 && |f.sponsors[i].sponsorshipAgreement| >= 1
                   && |f.sponsors[i].phone| >= 10 && env.isEmail(f.sponsors[i].email))
             && |f.host.firstName| >= 1 && |f.host.lastName| >= 1 && |f.host.dob| >= 1
             && |f.host.phone| >= 10 && env.isEmail(f.host.email)
    ensures ValidForm(env, f)
  {
  }

  /** A form the page accepts names a sponsor and meets `insertVenueSchema`
      (capacity at least 1), yet its body still fails the server's event
      schema. No handler applies `insertVenueSchema`: the venue nested in a
      create body has its own schema, which sets no minimum on capacity. */
  lemma AcceptedFormStillRefused(env: Env, f: Form)
    requires ValidForm(env, f)
    ensures ValidVenueBody(RequestBody(f).venue)
    ensures |RequestBody(f).sponsors| == |f.sponsors| >= 1
    ensures !ValidCreateBody(RequestBody(f))
  {
  }

  /** The body the page posts has no venue id, which the server's event
      schema demands: every submitted form is a 400 that writes nothing. */
  lemma SubmittedFormRejected(db: Db, env: Env, plan: Plan, f: Form)
    requires f.venue.capacity.Some?
    ensures Create(db, env, plan, RequestBody(f)) == Step(db, Failure(BadRequest))
  {
  }

  /** The server does not repeat the page's checks: an event with empty
      names, a venue of capacity 0 and no sponsors is stored (its host has a
      real date of birth), while the form holding the same fields is refused. */
  lemma ServerAcceptsWhatFormRejects(env: Env)
    requires env.isDate("2000-01-01")
    ensures var body := CreateBody(EventBody("", "", Some(1), "", ""), VenueBody("", "", "", "", 0), [],
                                   HostInput("", "", "2000-01-01", "", "0123456789"));
            var form := Form("", "", "", "", VenueForm("", "", "", "", Some(0)), [],
                             HostForm("", "", "2000-01-01", "", "0123456789"));
            && Create(EmptyDb(), env, Plan(None), body).reply == Success(1)
            && RequestBody(form).venue == body.venue
            && RequestBody(form).sponsors == body.sponsors
            && !ValidForm(env, form)
  {
  }
}
