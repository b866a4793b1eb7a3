# Listing controller of a Laravel job board, modelled in Dafny

The job board publishes paid job listings. Its `ListingController` has five actions. `show` and `create` only render views; the other three are modelled:

- `index` shows the active listings newest first. An optional query `s` narrows them: it must occur, ignoring case, in the title, company or location. An optional `tag` slug narrows them further.
- `apply` records a click on a listing and redirects to the listing's apply link.
- `store` publishes a listing. It validates the form and resolves the paying user; a guest gets an account that is created, registered with Stripe and signed in. It then charges 4900, or 5800 for a highlighted listing, in the minor unit (cents) of the configured currency. Finally it creates the listing with a slugged, randomly suffixed URL and attaches the comma-separated tags, creating each tag on first use.

The project has these modules:

- `Options` defines an optional value.
- `Text` models the string helpers the controller calls:
  - `strtolower`, `trim`, `filled`, `Str::contains`, `explode`/`implode`, `ucwords` and `Str::slug`;
  - `Filled` is proved equivalent to "trim is not empty";
  - `Slug` is proved to produce a slug, and to be idempotent and case-blind.
- `Listings` holds the table rows and the index search, as functions over sequences. Properties proved:
  - which entries the search returns;
  - the result is a subsequence of the base set;
  - the result is ordered newest first.
- `Tagging` holds the tag tokens and the `firstOrCreate` / `attach` specification `AttachAll`. Properties proved:
  - one tag per slug;
  - one pivot row per token, in order;
  - the tag names come from the first token of each slug;
  - one tag is created per new slug;
  - submitting the same tags again creates no tags.
- `Requests` holds the store request, the validation array as the controller writes it, a corrected array, the `required` rule and the amount.
- `Controller` is the class `JobBoard`. It keeps the users, listings, tags, pivot, clicks, charges and session tables as fields, and its methods update them in place:
  - `Apply`, `GetAuthStripeUser`, `ChargeUser`, `CreatePayedListing`, `FirstOrCreate`, the tag loop, `ProcessPayment` and `Store`;
  - each method is proved to keep the tables consistent: auto-increment ids, one tag per slug, and every reference to an existing row;
  - each method states its new state exactly. `Store` does so through two predicates: `SignedIn` covers the users and the session, and `Paid` covers the charge, the listing, the tags and the pivot.

Several things are parameters rather than computed:

- the Markdown rendering of the content (`rendered`);
- the password hash;
- the payment gateway's answer;
- the validator's verdict on rules other than `required`.

## Model

| member | source | states |
|---|---|---|
| Controller.JobBoard.Index | app/Http/Controllers/ListingController.php:15-53 | An active listing, with its own tags, is shown exactly when the lower-cased query occurs in its lower-cased title, company or location (if `s` is given) and one of its tags has the slug (if `tag` is given). The result is a subsequence of the newest-first base set and is itself newest first. |
| Listings.ActiveNewestFirstMembers | app/Http/Controllers/ListingController.php:17-20 | The base set holds exactly the active listings, each paired with the tags its pivot rows link it to. |
| Listings.ActiveNewestFirstOrdered | app/Http/Controllers/ListingController.php:17-20 | When ids grow with insertion, the base set is strictly newest first. |
| Listings.TagsOfSlug | app/Http/Controllers/ListingController.php:18 | A listing's loaded tags include one with slug `s` exactly when some pivot row links the listing to a tag with that slug. |
| Listings.SearchMembers | app/Http/Controllers/ListingController.php:25-50 | An entry survives the two filters exactly when it is in the base set, matches the query (if given) and carries the tag slug (if given). |
| Listings.SearchIsSubsequence | app/Http/Controllers/ListingController.php:27-49 | Filtering only deletes entries and keeps the order of the rest. |
| Listings.SubsequenceNewestFirst | app/Http/Controllers/ListingController.php:27-49 | A subsequence of a newest-first sequence is newest first, so the filters keep the `latest()` order. |
| Listings.EmptyQueryFindsNothing | app/Http/Controllers/ListingController.php:25-41 | A present but empty query keeps no listing, because `Str::contains` is false for an empty needle. |
| Text.SubstringAt | app/Http/Controllers/ListingController.php:28 | The substring test used for `Str::contains` holds exactly when the needle occurs at some position of the haystack. |
| Text.ToLower | app/Http/Controllers/ListingController.php:26 | `strtolower` keeps the length and lower-cases each character on its own. |
| Controller.JobBoard.Apply | app/Http/Controllers/ListingController.php:60-68 | Exactly one click with the visitor's user agent and IP is appended for the listing. The answer redirects to the listing's apply link. The tables stay consistent. |
| Controller.JobBoard.Store | app/Http/Controllers/ListingController.php:75-80 | When validation fails, the answer is the validator's redirect and nothing is written. Otherwise the answer is processPayment's. The users and session end as `SignedIn` says: the existing user, or one new user built from the request and signed in. The charges, listings, tags and pivot end as `Paid` says for that user. That means the 4900/5800 charge on approval, and the paid listing with its tags attached as `AttachAll` says when there is also a logo. |
| Requests.ValidationRulesAsWritten | app/Http/Controllers/ListingController.php:85-106 | The seven listing keys are always validated. The account keys are validated exactly when nobody is signed in. No other key is. Every key but `logo` is required; `logo` carries only the rules `file` and `max:2048`. |
| Requests.ValidationRules | app/Http/Controllers/ListingController.php:85-106 | The corrected array has the same keys and the same other rules, with every key, `logo` included, required. |
| Requests.LogoIgnoredAsWritten | app/Http/Controllers/ListingController.php:90 | No `required` rule of the array as written reads `logo`. So with the other rules' verdict (`othersPass`) fixed, a logo's presence does not change the outcome. The `file` and `max:2048` rules still apply to an uploaded logo; they sit inside `othersPass`. |
| Requests.LogoOptionalAsWritten | app/Http/Controllers/ListingController.php:90 | A concrete signed-in request with no logo passes the array as written. |
| Requests.CorrectionRequiresLogo | app/Http/Controllers/ListingController.php:87-95 | The corrected array accepts exactly the requests the array as written accepts that also carry a logo. |
| Requests.LogoRequiredRejects | app/Http/Controllers/ListingController.php:90 | The corrected array rejects every request without a logo. |
| Requests.ValidatedListingFilled | app/Http/Controllers/ListingController.php:87-95 | A validated request has the title, company, location, apply link, content and payment method filled. |
| Requests.ValidatedGuestFilled | app/Http/Controllers/ListingController.php:97-103 | A guest's validated request has the email, password and name filled. |
| Controller.JobBoard.GetAuthStripeUser | app/Http/Controllers/ListingController.php:112-130 | If someone is signed in, that user is returned and the users table is unchanged. Otherwise exactly one user is appended, built from the request's name, email and password hash and registered as a Stripe customer; that user is signed in and returned. |
| Requests.ChargeAmount | app/Http/Controllers/ListingController.php:141-144 | The amount is 5800 cents when `is_highlighted` is filled and 4900 otherwise. |
| Text.FilledIff | app/Http/Controllers/ListingController.php:142 | A value is filled exactly when it has a character that `trim` does not strip. |
| Text.FilledIsTrimmed | app/Http/Controllers/ListingController.php:142 | A value is filled exactly when trimming it leaves something. |
| Controller.JobBoard.ChargeUser | app/Http/Controllers/ListingController.php:146 | On approval, exactly one charge of the amount with the payment method is appended for the user. On decline, the charges are unchanged. |
| Controller.JobBoard.ProcessPayment | app/Http/Controllers/ListingController.php:138-155 | The tables end as the predicate `Paid` says. A declined charge answers with the gateway's message and writes nothing. An approved charge is recorded with the right amount. Without a logo, the answer is an uncaught Error and no listing, tag or pivot row is written. With a logo, one paid listing is appended, its tags are attached as `AttachAll` says, and the answer is the dashboard. |
| Controller.JobBoard.CreatePayedListing | app/Http/Controllers/ListingController.php:157-172 | With an uploaded logo, exactly one listing is appended with the next id, and it is the paid listing the request describes. Without one, nothing is written and the step fails. |
| Controller.JobBoard.NewPaidListing | app/Http/Controllers/ListingController.php:161-171 | The row holds the request's fields, the stored logo name and the rendered content. Its slug is the title's slug, a dash and a number from 1111 to 9999. It is highlighted exactly when `is_highlighted` is filled, and it is active. |
| Controller.PaidListingSlug | app/Http/Controllers/ListingController.php:163 | A paid listing's slug is the title's slug followed by a dash and four digits. |
| Text.FourDigits | app/Http/Controllers/ListingController.php:163 | Every number from 1111 to 9999 is written with exactly four decimal digits. |
| Text.SlugIsSlug | app/Http/Controllers/ListingController.php:163 | `Str::slug` yields lower-case letters and digits in words joined by single dashes, with no dash at either end. |
| Text.SlugIdempotent | app/Http/Controllers/ListingController.php:179 | Slugging a slug returns it unchanged. |
| Text.SlugIgnoresCase | app/Http/Controllers/ListingController.php:179 | Two strings that agree after lower-casing have the same slug. |
| Tagging.SameKeyUpToCase | app/Http/Controllers/ListingController.php:179 | Tokens that differ only in case are filed under the same tag slug. |
| Tagging.PreparedSelfSlugged | app/Http/Controllers/ListingController.php:179-182 | A token's tag slug is the slug of its name, as `ucwords` only changes case. |
| Text.LowerUcWordsFrom | app/Http/Controllers/ListingController.php:182 | `ucwords` only changes case: lower-casing its result equals lower-casing its input. |
| Text.ImplodeExplode | app/Http/Controllers/ListingController.php:176 | Joining the pieces of `explode` with the delimiter gives back the input. |
| Text.ExplodeImplode | app/Http/Controllers/ListingController.php:176 | Exploding the join of delimiter-free pieces gives back the pieces. |
| Text.ExplodePiecesFree | app/Http/Controllers/ListingController.php:176 | No piece of `explode` contains the delimiter. |
| Controller.JobBoard.FirstOrCreate | app/Http/Controllers/ListingController.php:177-184 | The tag with the token's slug is found, or else created with the next id and the token's name. The id returned is that tag's. The tables stay consistent. |
| Tagging.FindOrCreateSpec | app/Http/Controllers/ListingController.php:177-184 | Find-or-create by slug keeps the existing tags. It adds a tag exactly when the slug is new. It returns the id of the unique tag with that slug. |
| Controller.JobBoard.AttachTagToPayedListing | app/Http/Controllers/ListingController.php:174-188 | The tags and pivot rows end exactly as `AttachAll` says for the tokens of the field. The tables stay consistent. |
| Controller.JobBoard.AttachLoop | app/Http/Controllers/ListingController.php:176-187 | The loop over the tokens leaves the tables as `AttachAll` says for the whole sequence. |
| Tagging.AttachAllTags | app/Http/Controllers/ListingController.php:176-187 | Attaching keeps the existing tags as a prefix, the tag table keeps one tag per slug and sequential ids, and the slugs become the old slugs plus the tokens' keys. |
| Tagging.AttachAllSlugs | app/Http/Controllers/ListingController.php:176-187 | After attaching, the tag slugs are the old slugs plus the keys of the tokens. |
| Tagging.AttachAllPivot | app/Http/Controllers/ListingController.php:176-187 | Exactly one pivot row per token is appended, in order, each linking the listing to the tag whose slug is that token's key. |
| Tagging.AttachAllNames | app/Http/Controllers/ListingController.php:176-184 | Each created tag is named after the first token with its slug. |
| Tagging.AttachAllSelfSlugged | app/Http/Controllers/ListingController.php:176-184 | Every tag the loop creates from self-slugged tokens is self-slugged, for any previous table. |
| Tagging.AttachFieldSelfSlugged | app/Http/Controllers/ListingController.php:176-184 | Every tag created for a submitted tags field has as slug the slug of its own name. |
| Tagging.AttachKnownCreatesNothing | app/Http/Controllers/ListingController.php:177-184 | When every token's slug already exists, the tag table is unchanged. |
| Tagging.AttachIdempotentOnTags | app/Http/Controllers/ListingController.php:176-187 | Attaching the same tokens a second time, to any listing, creates no tag. |
| Tagging.AttachCreatesOnePerNewSlug | app/Http/Controllers/ListingController.php:176-184 | The tag table grows by exactly the number of distinct token slugs that were not already present. |
| Tagging.BlankFieldLinksEmptySlug | app/Http/Controllers/ListingController.php:176-186 | A blank tags field still yields one token. The listing gets one pivot row, to a tag whose slug is the empty string. |
| Controller.StrictStoreNeverFails | app/Http/Controllers/ListingController.php:75-80 | With the corrected validation array, store never answers with an uncaught Error. |
| Controller.AsWrittenLogolessFails | app/Http/Controllers/ListingController.php:165 | With the array as written, a signed-in request without a logo passes validation and, once the charge is approved, answers with an uncaught Error. |

## Left out

- `show` and `create` only render views. They are not modelled, and neither is the view rendering of `index`.
- The tag list `index` passes to its view, ordered by name (`ListingController.php:22-23`), feeds only the view. It is not modelled.
- The Markdown rendering of the content (ParsedownExtra) is the parameter `rendered`.
- Storing the uploaded logo is modelled as the `Upload` datatype. The generated file name is its `storedName`; the disk write is not modelled.
- Rules other than `required` are not interpreted: `file`, `max:2048`, `url`, `email`, `unique:users`, `confirmed` and `min:5`. Their combined verdict is the parameter `othersPass`.
- `Hash::make` is the parameter `passwordHash`. The session behind `Auth::user`/`Auth::login` is the field `authUser`.
- Stripe is the parameter `gateway`:
  - a decline stands for any exception the charge raises;
  - `createAsStripeCustomer` sets a flag on the user;
  - no network is modelled.
- Controller.JobBoard.GetAuthStripeUser: `createAsStripeCustomer` (line 124) always succeeds in the model. In the source it runs in `store`, outside the `try` of `processPayment`. If it throws, the new user row is already written, `Auth::login` (line 126) is never reached, and the exception is not caught. The model does not capture that outcome.
- Database failures are not modelled: exceptions from `create`, `firstOrCreate` or `attach` after the charge. Concurrent requests racing on the same tag slug are not modelled either.
- `rand(1111, 9999)` is an arbitrary choice in that range. Its distribution, and collisions between listing slugs, are not modelled.
- `latest()` orders by `created_at`. The model orders by insertion, with ids growing, so timestamp ties are not modelled.
- Character handling is ASCII only:
  - `strtolower`, `ucwords` and `Str::slug` are modelled on ASCII;
  - the transliteration of other characters is not modelled;
  - `Str::slug` is modelled as follows. Letters are lower-cased. Letters and digits are kept. `-`, `_` and white space are separators. `@` becomes `-at-`. Every other character is dropped, so `a.b` gives `ab`. A run of separators becomes one dash, and no dash is left at either end.
- The query parameters are `Option` values: `None` when `has` is false. A request with `?s=` arrives as null after the framework converts empty inputs. `has('s')` is still true, and `strtolower(null)` gives "", so that request is `Some("")`.
- `Collection::contains('slug', $tag)` compares loosely in PHP. The model compares slugs as strings, so numeric strings that PHP treats as equal are not modelled.
- Controller.JobBoard.AttachTagToPayedListing: trimming, slugging and naming of all tokens happens before the loop rather than at the top of each iteration. These are pure computations, so the tables end the same.

## Findings

| source | as written | input that shows it | evidently intended | confidence | as-written member | corrected member |
|---|---|---|---|---|---|---|
| app/Http/Controllers/ListingController.php:90 | The `logo` rules are `file` and `max:2048`, without `required`, yet line 165 calls `store` on the uploaded file unconditionally. Calling a method on null raises an Error, which the `catch (\Exception)` at line 152 does not catch. | A signed-in user submits every required field but no logo, and the gateway approves: the user is charged, no listing is created and the answer is a server error. | `logo` also carries `required`, so a request without a logo is rejected before any charge | not executed | Controller.AsWrittenLogolessFails | Controller.StrictStoreNeverFails |
