/**
  The listing controller over the job board's tables: the index search, click
  tracking on apply, and the paid publication pipeline of store (validate,
  resolve the paying user, charge, create the listing, attach its tags).
  The tables are fields of one object that the actions update in place.
 */
module Controller {
  import opened Options
  import opened Text
  import opened Listings
  import opened Tagging
  import opened Requests

  /** What an action answers. */
  datatype Response =
    | Redirect(url: string)                  // redirect()->to(...)
    | RedirectToDashboard                    // redirect()->route('dashboard')
    | RedirectBackWithError(message: string) // redirect()->back()->withErrors(['error' => ...])
    | ValidationFailed                       // the validator's redirect back with its messages
    | ServerError                            // an Error nobody catches

  /** What the payment gateway answers to a charge request. */
  datatype ChargeOutcome = Approved | Declined(message: string)

  /** A charge the gateway has made: who paid, how many cents, with which payment method. */
  datatype Charge = Charge(userId: nat, amount: nat, paymentMethod: string)

  /**
    The listing a paid request creates for user `uid` as row `id`: the request's
    fields, the content rendered from Markdown, the title's slug with a random
    four-digit suffix, highlighted exactly when the flag was filled, and active.
   */
  ghost predicate PaidListing(l: Listing, id: nat, uid: nat, req: Request, rendered: string)
  {
    && req.logo.Uploaded?
    && l.id == id && l.owner == uid
    && l.title == req.title && l.company == req.company && l.logo == req.logo.storedName
    && l.location == req.location && l.applyLink == req.applyLink
    && l.content == rendered
    && l.isHighlighted == Filled(req.isHighlighted)
    && l.isActive
    && exists n :: 1111 <= n <= 9999 && l.slug == Slug(req.title) + "-" + Decimal(n)
  }

  /** The slug of a paid listing is a slug of its title, a dash and four digits. */
  lemma PaidListingSlug(l: Listing, id: nat, uid: nat, req: Request, rendered: string)
    requires PaidListing(l, id, uid, req, rendered)
    ensures |l.slug| == |Slug(req.title)| + 5
    ensures l.slug[..|Slug(req.title)|] == Slug(req.title)
    ensures l.slug[|Slug(req.title)|] == '-'
    ensures forall i :: |Slug(req.title)| < i < |l.slug| ==> IsDigit(l.slug[i])
  {
    var n :| 1111 <= n <= 9999 && l.slug == Slug(req.title) + "-" + Decimal(n);
    FourDigits(n);
    DashSuffix(Slug(req.title), Decimal(n), l.slug);
  }

  /** `p + "-" + d` starts with `p`, then the dash, then the digits of `d`. */
  lemma DashSuffix(p: string, d: string, r: string)
    requires r == p + "-" + d
    requires |d| == 4 && forall i :: 0 <= i < |d| ==> IsDigit(d[i])
    ensures |r| == |p| + 5 && r[..|p|] == p && r[|p|] == '-'
    ensures forall i :: |p| < i < |r| ==> IsDigit(r[i])
  {
    forall i | |p| < i < |r| ensures IsDigit(r[i]) {
      assert r[i] == d[i - |p| - 1];
    }
  }

  /**
    The tables as the application keeps them: auto-increment ids, one tag per
    slug, and every reference (owner, pivot row, click, charge, session) to
    an existing row.
   */
  ghost predicate Consistent(users: seq<User>, listings: seq<Listing>, tags: seq<Tag>, pivot: seq<PivotRow>,
                             clicks: seq<Click>, charges: seq<Charge>, authUser: Option<nat>)
  {
    && (forall i :: 0 <= i < |users| ==> users[i].id == i + 1)
    && (forall i :: 0 <= i < |listings| ==> listings[i].id == i + 1 && 1 <= listings[i].owner <= |users|)
    && WellFormedTags(tags)
    && (forall r :: r in pivot ==> 1 <= r.tagId <= |tags| && 1 <= r.listingId <= |listings|)
    && (forall c :: c in clicks ==> 1 <= c.listingId <= |listings|)
    && (forall c :: c in charges ==> 1 <= c.userId <= |users|)
    && (authUser.Some? ==> 1 <= authUser.value <= |users|)
  }

  /** Appending the next listing, owned by an existing user, keeps the tables consistent. */
  lemma AppendListing(users: seq<User>, listings: seq<Listing>, tags: seq<Tag>, pivot: seq<PivotRow>,
                      clicks: seq<Click>, charges: seq<Charge>, authUser: Option<nat>, l: Listing)
    requires Consistent(users, listings, tags, pivot, clicks, charges, authUser)
    requires l.id == |listings| + 1 && 1 <= l.owner <= |users|
    ensures Consistent(users, listings + [l], tags, pivot, clicks, charges, authUser)
  {
  }

  /**
    The users table and session after `getAuthStripeUser`: unchanged when
    someone is signed in; otherwise one user built from the request (with
    `passwordHash` for its password), registered with the gateway and
    signed in.
   */
  ghost predicate SignedIn(users0: seq<User>, auth0: Option<nat>, users: seq<User>, auth: Option<nat>,
                           req: Request, passwordHash: string)
  {
    && (auth0.Some? ==> users == users0 && auth == auth0)
    && (auth0.None? ==>
          && auth == Some(|users0| + 1)
          && users == users0 + [User(|users0| + 1, req.name, req.email, passwordHash, true)])
  }

  /**
    The tables after `processPayment` charged user `uid` (old tables suffixed 0):
    a declined charge writes nothing; an approved one records the price; without
    a logo nothing else is written; with one, the paid listing is appended and
    its tags are attached as `AttachAll` says.
   */
  ghost predicate Paid(charges0: seq<Charge>, listings0: seq<Listing>, tags0: seq<Tag>, pivot0: seq<PivotRow>,
                       charges: seq<Charge>, listings: seq<Listing>, tags: seq<Tag>, pivot: seq<PivotRow>,
                       req: Request, uid: nat, gateway: ChargeOutcome, rendered: string)
  {
    && (gateway.Declined? ==>
          charges == charges0 && listings == listings0 && tags == tags0 && pivot == pivot0)
    && (gateway.Approved? ==>
          charges == charges0 + [Charge(uid, if Filled(req.isHighlighted) then 5800 else 4900, req.paymentMethodId)])
    && (gateway.Approved? && req.logo.NoFile? ==>
          listings == listings0 && tags == tags0 && pivot == pivot0)
    && (gateway.Approved? && req.logo.Uploaded? ==>
          && |listings| == |listings0| + 1 && listings[..|listings0|] == listings0
          && PaidListing(listings[|listings0|], |listings|, uid, req, rendered)
          && (tags, pivot) == AttachAll(tags0, pivot0, PrepareField(req.tags), |listings|))
  }

  class JobBoard {
    var users: seq<User>
    var listings: seq<Listing>
    var tags: seq<Tag>
    var pivot: seq<PivotRow>
    var clicks: seq<Click>
    /** The gateway's record of the charges it made. */
    var charges: seq<Charge>
    /** The id of the signed-in user, if any (the session). */
    var authUser: Option<nat>

    /** The board's tables are `Consistent`. */
    ghost predicate Valid()
      reads this
    {
      Consistent(users, listings, tags, pivot, clicks, charges, authUser)
    }

    constructor ()
      ensures Valid()
      ensures users == [] && listings == [] && tags == [] && pivot == [] && clicks == [] && charges == []
      ensures authUser == None
    {
      users, listings, tags, pivot, clicks, charges := [], [], [], [], [], [];
      authUser := None;
    }

    // -------------------------------------------------------------------
    // index and apply
    // -------------------------------------------------------------------

    /**
      The listings the index shows for the optional query `s` and tag slug
      `tag`: an active listing, with its tags, is shown exactly when the
      lower-cased query occurs in its lower-cased title, company or location
      (if `s` is given) and one of its tags has the slug (if `tag` is given);
      the result keeps the newest-first order of the base set.
     */
    function Index(s: Option<string>, tag: Option<string>): (r: seq<Entry>)
      reads this
      requires Valid()
      ensures forall e :: e in r <==>
        && e.listing in listings && e.listing.isActive && e.tags == TagsOf(tags, pivot, e.listing.id)
        && (s.Some? ==> MatchesQuery(e.listing, ToLower(s.value)))
        && (tag.Some? ==> HasTagSlug(e, tag.value))
      ensures IsSubsequence(r, ActiveNewestFirst(listings, tags, pivot))
      ensures NewestFirst(r)
    {
      var base := ActiveNewestFirst(listings, tags, pivot);
      ActiveNewestFirstMembers(listings, tags, pivot);
      SearchMembers(base, s, tag);
      SearchIsSubsequence(base, s, tag);
      ActiveNewestFirstOrdered(listings, tags, pivot);
      SubsequenceNewestFirst(Search(base, s, tag), base);
      Search(base, s, tag)
    }

    /** `apply`: record one click on listing `lid` and send the visitor to its apply link. */
    method Apply(lid: nat, userAgent: string, ip: string) returns (resp: Response)
      requires Valid() && 1 <= lid <= |listings|
      modifies this`clicks
      ensures Valid()
      ensures clicks == old(clicks) + [Click(lid, userAgent, ip)]
      ensures resp == Redirect(listings[lid - 1].applyLink)
    {
      clicks := clicks + [Click(lid, userAgent, ip)];
      resp := Redirect(listings[lid - 1].applyLink);
    }

    // -------------------------------------------------------------------
    // store and its steps
    // -------------------------------------------------------------------

    /**
      `getAuthStripeUser`: the signed-in user, or else a new user made from the
      request (with `passwordHash` standing for the hash of its password),
      registered with the gateway and signed in.
     */
    method GetAuthStripeUser(req: Request, passwordHash: string) returns (uid: nat)
      requires Valid()
      modifies this`users, this`authUser
      ensures Valid()
      ensures 1 <= uid <= |users| && authUser == Some(uid)
      ensures old(authUser).Some? ==> uid == old(authUser).value && users == old(users)
      ensures old(authUser).None? ==>
        uid == |old(users)| + 1 && users == old(users) + [User(uid, req.name, req.email, passwordHash, true)]
    {
      if authUser.Some? {
        uid := authUser.value;
      } else {
        uid := |users| + 1;
        var user := User(uid, req.name, req.email, passwordHash, false);
        users := users + [user];
        // createAsStripeCustomer
        users := users[uid - 1 := user.(isStripeCustomer := true)];
        // Auth::login
        authUser := Some(uid);
      }
    }

    /**
      `createPayedListing`: appends the listing the request describes, owned by
      `uid`.  The logo is stored unconditionally: without an uploaded file that
      step fails with an Error (`created` is false) before anything is written.
     */
    method CreatePayedListing(req: Request, uid: nat, rendered: string) returns (created: bool)
      requires Valid() && 1 <= uid <= |users|
      modifies this`listings
      ensures Valid()
      ensures created == req.logo.Uploaded?
      ensures !created ==> listings == old(listings)
      ensures created ==>
        && |listings| == |old(listings)| + 1 && listings[..|old(listings)|] == old(listings)
        && PaidListing(listings[|old(listings)|], |old(listings)| + 1, uid, req, rendered)
    {
      if req.logo.NoFile? {
        created := false;
        return;
      }
      var l := NewPaidListing(req, |listings| + 1, uid, rendered);
      AppendListing(users, listings, tags, pivot, clicks, charges, authUser, l);
      listings := listings + [l];
      created := true;
      assert listings[..|old(listings)|] == old(listings);
    }

    /**
      The row `createPayedListing` builds: the request's fields, the rendered
      content, the title's slug with a random suffix drawn from 1111..9999.
     */
    static method NewPaidListing(req: Request, id: nat, uid: nat, rendered: string) returns (l: Listing)
      requires req.logo.Uploaded?
      ensures PaidListing(l, id, uid, req, rendered)
    {
      var n :| 1111 <= n <= 9999;
      l := Listing(
        id,
        uid,
        req.title,
        Slug(req.title) + "-" + Decimal(n),
        req.company,
        req.logo.storedName,
        req.location,
        req.applyLink,
        rendered,
        Filled(req.isHighlighted),
        true);
    }

    /**
      `Tag::firstOrCreate` by slug: the id of the tag filed under the token's
      key, creating it (named after the token) when no tag has that slug.
     */
    method FirstOrCreate(sub: Submitted) returns (id: nat)
      requires Valid()
      modifies this`tags
      ensures Valid()
      ensures (tags, id) == FindOrCreate(old(tags), sub)
      ensures 1 <= id <= |tags| && tags[id - 1].slug == sub.key
    {
      FindOrCreateSpec(tags, sub);
      match FindSlug(tags, sub.key)
      case Some(i) =>
        id := tags[i].id;
      case None =>
        id := |tags| + 1;
        tags := tags + [Tag(id, sub.name, sub.key)];
    }

    /**
      `attachTagToPayedListing`: for each comma-separated token of `field`, in
      order, find or create its tag and add one pivot row linking it to
      listing `lid`.  The tables end up as the specification `AttachAll` says.
     */
    method AttachTagToPayedListing(field: string, lid: nat)
      requires Valid() && 1 <= lid <= |listings|
      modifies this`tags, this`pivot
      ensures Valid()
      ensures (tags, pivot) == AttachAll(old(tags), old(pivot), PrepareField(field), lid)
    {
      var subs := PrepareField(field);
      AttachLoop(subs, lid);
    }

    method AttachLoop(subs: seq<Submitted>, lid: nat)
      requires Valid() && 1 <= lid <= |listings|
      modifies this`tags, this`pivot
      ensures Valid()
      ensures (tags, pivot) == AttachAll(old(tags), old(pivot), subs, lid)
    {
      var i := 0;
      while i < |subs|
        invariant 0 <= i <= |subs|
        invariant Valid()
        invariant (tags, pivot) == AttachAll(old(tags), old(pivot), subs[..i], lid)
      {
        assert subs[..i + 1][..i] == subs[..i];
        var id := FirstOrCreate(subs[i]);
        pivot := pivot + [PivotRow(id, lid)];
        i := i + 1;
      }
      assert subs[..|subs|] == subs;
    }

    /**
      `$user->charge($amount, $paymentMethod)`: the gateway charges the user,
      or declines (which the gateway client raises as an exception).
     */
    method ChargeUser(uid: nat, amount: nat, paymentMethod: string, gateway: ChargeOutcome) returns (charged: bool)
      requires Valid() && 1 <= uid <= |users|
      modifies this`charges
      ensures Valid()
      ensures charged == gateway.Approved?
      ensures charges == if charged then old(charges) + [Charge(uid, amount, paymentMethod)] else old(charges)
    {
      charged := gateway.Approved?;
      if charged {
        charges := charges + [Charge(uid, amount, paymentMethod)];
      }
    }

    /**
      `processPayment`: charge the listing's price to `uid` with the request's
      payment method (the gateway answering `gateway`), then create the listing,
      then attach its tags.  A declined charge is caught: the visitor is sent
      back with the gateway's message and nothing is written.  A missing logo
      raises an Error that is not caught: the charge stands, no listing exists.
     */
    method ProcessPayment(req: Request, uid: nat, gateway: ChargeOutcome, rendered: string)
      returns (resp: Response)
      requires Valid() && 1 <= uid <= |users|
      modifies this`charges, this`listings, this`tags, this`pivot
      ensures Valid()
      ensures resp == PaymentResponse(req.logo, gateway)
      ensures Paid(old(charges), old(listings), old(tags), old(pivot), charges, listings, tags, pivot, req, uid, gateway, rendered)
    {
      var amount := ChargeAmount(req);
      var charged := ChargeUser(uid, amount, req.paymentMethodId, gateway);
      if !charged {
        resp := RedirectBackWithError(gateway.message);
        return;
      }
      var created := CreatePayedListing(req, uid, rendered);
      if !created {
        resp := ServerError;
        return;
      }
      AttachTagToPayedListing(req.tags, |listings|);
      resp := RedirectToDashboard;
    }

    /**
      `store`: validate the request, resolve the paying user, and process the
      payment.  `strictLogo` selects the validation array with `logo` required;
      without it the array is the one the controller writes, under which a
      request without a logo is charged and then fails.  `othersPass` is the
      validator's verdict on the rules other than `required`.  A request that
      fails validation writes nothing; one that passes leaves the users and
      session as `SignedIn` says and the other tables as `Paid` says, for the
      user it signed in.
     */
    method Store(req: Request, strictLogo: bool, othersPass: bool, passwordHash: string,
                 gateway: ChargeOutcome, rendered: string)
      returns (resp: Response)
      requires Valid()
      modifies this`users, this`authUser, this`charges, this`listings, this`tags, this`pivot
      ensures Valid()
      ensures resp == StoreResponse(Validates(StoreRules(strictLogo, old(authUser).Some?), req, othersPass), req.logo, gateway)
      ensures !Validates(StoreRules(strictLogo, old(authUser).Some?), req, othersPass) ==>
        && users == old(users) && authUser == old(authUser) && charges == old(charges)
        && listings == old(listings) && tags == old(tags) && pivot == old(pivot)
      ensures Validates(StoreRules(strictLogo, old(authUser).Some?), req, othersPass) ==>
        && SignedIn(old(users), old(authUser), users, authUser, req, passwordHash)
        && authUser.Some?
        && Paid(old(charges), old(listings), old(tags), old(pivot), charges, listings, tags, pivot,
                req, authUser.value, gateway, rendered)
    {
      var rules := StoreRules(strictLogo, authUser.Some?);
      if !Validates(rules, req, othersPass) {
        resp := ValidationFailed;
        return;
      }
      var uid := GetAuthStripeUser(req, passwordHash);
      resp := ProcessPayment(req, uid, gateway, rendered);
    }
  }

  /**
    What processPayment answers: the gateway's message when the charge is
    declined, the uncaught Error when there is no logo to store, and the
    dashboard otherwise.
   */
  function PaymentResponse(logo: Upload, gateway: ChargeOutcome): Response
  {
    match gateway
    case Declined(message) => RedirectBackWithError(message)
    case Approved => if logo.NoFile? then ServerError else RedirectToDashboard
  }

  /** What store answers: the validator's redirect when validation fails, else processPayment's answer. */
  function StoreResponse(validated: bool, logo: Upload, gateway: ChargeOutcome): Response
  {
    if validated then PaymentResponse(logo, gateway) else ValidationFailed
  }

  /** With the corrected validation array, store never ends in an uncaught Error. */
  lemma StrictStoreNeverFails(authenticated: bool, req: Request, othersPass: bool, gateway: ChargeOutcome)
    ensures StoreResponse(Validates(ValidationRules(authenticated), req, othersPass), req.logo, gateway) != ServerError
  {
    if req.logo.NoFile? {
      LogoRequiredRejects(authenticated, req, othersPass);
    }
  }

  /**
    With the array as written, a signed-in user's request without a logo passes
    validation and, once the gateway approves the charge, ends in an uncaught Error.
   */
  lemma AsWrittenLogolessFails()
    ensures StoreResponse(Validates(ValidationRulesAsWritten(true), LogolessRequest(), true), LogolessRequest().logo, Approved)
            == ServerError
  {
    LogoOptionalAsWritten();
  }

  /** The validation array store uses: the corrected one, or the one the controller writes. */
  function StoreRules(strictLogo: bool, authenticated: bool): Rules
  {
    if strictLogo then ValidationRules(authenticated) else ValidationRulesAsWritten(authenticated)
  }
}
