/**
  The store request as the controller sees it, the validation rule set it
  selects, the part of the validator this model interprets (the `required`
  rule) and the amount a listing is charged.
 */
module Requests {
  import opened Text

  /** The `logo` part of the multipart form: absent, or stored under a generated file name. */
  datatype Upload = NoFile | Uploaded(storedName: string)

  /**
    The input of the store request.  A text field the form did not send is the
    empty string (the controller never distinguishes an absent field from an
    empty one except through `filled` and `required`, which treat them alike).
   */
  datatype Request = Request(
    title: string,
    company: string,
    logo: Upload,
    location: string,
    applyLink: string,
    content: string,
    paymentMethodId: string,
    isHighlighted: string,
    tags: string,
    email: string,
    password: string,
    name: string)

  /** A rule of a validation string other than `required`, such as `email` or `unique:users`. */
  datatype Rule =
    | IsFile
    | MaxKilobytes(limit: nat)
    | IsUrl
    | IsEmail
    | UniqueIn(table: string)
    | Confirmed
    | MinLength(length: nat)

  /**
    The rule string of one key, such as `required|email|unique:users`: whether
    it carries `required`, and its other rules in order.
   */
  datatype KeyRules = KeyRules(required: bool, others: seq<Rule>)

  /** The input keys the validation array names. */
  datatype Field =
    | Title | Company | Logo | Location | ApplyLink | Content | PaymentMethodId
    | Email | Password | Name

  /** A validation array: input key to its rule string. */
  type Rules = map<Field, KeyRules>

  /** The keys every store request is validated on. */
  const ListingFields: set<Field> := {Title, Company, Logo, Location, ApplyLink, Content, PaymentMethodId}

  /** The keys a guest must also supply, for the account created on the fly. */
  const AccountFields: set<Field> := {Email, Password, Name}

  // ---------------------------------------------------------------------
  // The validation array
  // ---------------------------------------------------------------------

  /** The rule string the controller writes for each key: every key is required except `logo`. */
  function RulesAsWritten(f: Field): (r: KeyRules)
    ensures r.required <==> f != Logo
  {
    match f
    case Title => KeyRules(true, [])
    case Company => KeyRules(true, [])
    case Logo => KeyRules(false, [IsFile, MaxKilobytes(2048)])
    case Location => KeyRules(true, [])
    case ApplyLink => KeyRules(true, [IsUrl])
    case Content => KeyRules(true, [])
    case PaymentMethodId => KeyRules(true, [])
    case Email => KeyRules(true, [IsEmail, UniqueIn("users")])
    case Password => KeyRules(true, [Confirmed, MinLength(5)])
    case Name => KeyRules(true, [])
  }

  /** The keys validated: the listing's own, and the account's when nobody is signed in. */
  function ValidatedFields(authenticated: bool): set<Field>
  {
    if authenticated then ListingFields else ListingFields + AccountFields
  }

  /**
    `getListingValidationArray` as written: the seven listing keys always, and
    the account keys exactly when nobody is signed in.  Every key but `logo`
    is required; `logo` is only restricted to a file of at most 2048 kilobytes.
   */
  function ValidationRulesAsWritten(authenticated: bool): (r: Rules)
    ensures ListingFields <= r.Keys
    ensures forall f :: f in AccountFields ==> (f in r <==> !authenticated)
    ensures r.Keys <= ListingFields + AccountFields
    ensures forall f :: f in r ==> (r[f].required <==> f != Logo)
    ensures Logo in r && r[Logo] == KeyRules(false, [IsFile, MaxKilobytes(2048)])
  {
    map f | f in ValidatedFields(authenticated) :: RulesAsWritten(f)
  }

  /**
    The validation array with `logo` also required, which is what creating
    the listing needs: it stores the uploaded file unconditionally.  Only the
    `required` flag of `logo` differs from the array as written.
   */
  function ValidationRules(authenticated: bool): (r: Rules)
    ensures r.Keys == ValidationRulesAsWritten(authenticated).Keys
    ensures forall f :: f in r ==> r[f].required
    ensures forall f :: f in r ==> r[f].others == ValidationRulesAsWritten(authenticated)[f].others
    ensures r[Logo] == KeyRules(true, [IsFile, MaxKilobytes(2048)])
  {
    var w := ValidationRulesAsWritten(authenticated);
    map f | f in w :: w[f].(required := true)
  }

  // ---------------------------------------------------------------------
  // The validator, as far as the `required` rule goes
  // ---------------------------------------------------------------------

  /** The text the request carries for a field ("" for the file field). */
  function FieldText(req: Request, f: Field): string
  {
    match f
    case Title => req.title
    case Company => req.company
    case Logo => ""
    case Location => req.location
    case ApplyLink => req.applyLink
    case Content => req.content
    case PaymentMethodId => req.paymentMethodId
    case Email => req.email
    case Password => req.password
    case Name => req.name
  }

  /** What the `required` rule accepts: an uploaded file, or text that is not blank. */
  predicate Present(req: Request, f: Field)
  {
    if f == Logo then req.logo.Uploaded? else Filled(FieldText(req, f))
  }

  /**
    The request passes the rule set: every key carrying `required` is present,
    and the other rules (whose own semantics are not modelled) gave the
    verdict `othersPass`.
   */
  predicate Validates(rules: Rules, req: Request, othersPass: bool)
  {
    othersPass && forall f :: f in rules && rules[f].required ==> Present(req, f)
  }

  /**
    No `required` rule of the array as written reads `logo`, so with the other
    rules' verdict fixed, whether a file was uploaded does not change the outcome.
   */
  lemma LogoIgnoredAsWritten(authenticated: bool, req: Request, logo: Upload, othersPass: bool)
    ensures Validates(ValidationRulesAsWritten(authenticated), req, othersPass) <==>
            Validates(ValidationRulesAsWritten(authenticated), req.(logo := logo), othersPass)
  {
    var rules := ValidationRulesAsWritten(authenticated);
    forall f | f in rules && rules[f].required
      ensures Present(req, f) == Present(req.(logo := logo), f)
    {
      PresentIgnoresLogo(req, logo, f);
    }
  }

  lemma PresentIgnoresLogo(req: Request, logo: Upload, f: Field)
    requires f != Logo
    ensures Present(req, f) == Present(req.(logo := logo), f)
  {
    assert FieldText(req.(logo := logo), f) == FieldText(req, f);
  }

  /** A signed-in user's request without a logo that the rules as written accept. */
  function LogolessRequest(): Request
  {
    Request("Dev", "Acme", NoFile, "Remote", "https://acme.test/jobs", "Work.", "pm_1", "", "php", "", "", "")
  }

  /** The rules as written let a request with no logo through, for a signed-in user. */
  lemma LogoOptionalAsWritten()
    ensures Validates(ValidationRulesAsWritten(true), LogolessRequest(), true)
  {
    var req := LogolessRequest();
    var rules := ValidationRulesAsWritten(true);
    forall f | f in rules && rules[f].required ensures Present(req, f) {
      assert f in ListingFields;
      FilledIff(FieldText(req, f));
      assert !IsTrimmable(FieldText(req, f)[0]);
    }
  }

  /**
    The corrected rules accept exactly the requests the rules as written
    accept that also carry a logo.
   */
  lemma CorrectionRequiresLogo(authenticated: bool, req: Request, othersPass: bool)
    ensures Validates(ValidationRules(authenticated), req, othersPass) <==>
            Validates(ValidationRulesAsWritten(authenticated), req, othersPass) && req.logo.Uploaded?
  {
    var w := ValidationRulesAsWritten(authenticated);
    var r := ValidationRules(authenticated);
    assert Logo in r;
    if Validates(w, req, othersPass) && req.logo.Uploaded? {
      forall f | f in r && r[f].required ensures Present(req, f) {
        assert f == Logo || w[f].required;
      }
    }
  }

  /** The corrected rules reject every request without a logo. */
  lemma LogoRequiredRejects(authenticated: bool, req: Request, othersPass: bool)
    requires req.logo.NoFile?
    ensures !Validates(ValidationRules(authenticated), req, othersPass)
  {
    assert Logo in ValidationRules(authenticated) && !Present(req, Logo);
  }

  /** A request the rules as written accept has every listing text field filled. */
  lemma ValidatedListingFilled(authenticated: bool, req: Request, othersPass: bool)
    requires Validates(ValidationRulesAsWritten(authenticated), req, othersPass)
    ensures Filled(req.title) && Filled(req.company) && Filled(req.location)
    ensures Filled(req.applyLink) && Filled(req.content) && Filled(req.paymentMethodId)
  {
    var w := ValidationRulesAsWritten(authenticated);
    assert Present(req, Title) && Present(req, Company) && Present(req, Location) by {
      assert Title in w && Company in w && Location in w;
    }
    assert Present(req, ApplyLink) && Present(req, Content) && Present(req, PaymentMethodId) by {
      assert ApplyLink in w && Content in w && PaymentMethodId in w;
    }
  }

  /** A guest's request the rules as written accept has the account fields filled. */
  lemma ValidatedGuestFilled(req: Request, othersPass: bool)
    requires Validates(ValidationRulesAsWritten(false), req, othersPass)
    ensures Filled(req.email) && Filled(req.password) && Filled(req.name)
  {
    var w := ValidationRulesAsWritten(false);
    assert Present(req, Email) && Present(req, Password) && Present(req, Name) by {
      assert Email in w && Password in w && Name in w;
    }
  }

  // ---------------------------------------------------------------------
  // The amount
  // ---------------------------------------------------------------------

  /** The price of a listing in cents: 4900, and 900 more when it is highlighted. */
  method ChargeAmount(req: Request) returns (amount: nat)
    ensures Filled(req.isHighlighted) ==> amount == 5800
    ensures !Filled(req.isHighlighted) ==> amount == 4900
  {
    amount := 4900;
    if Filled(req.isHighlighted) {
      amount := amount + 900;
    }
  }
}
