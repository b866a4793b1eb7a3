/**
  The job-board records and the search behind the listing index: the base set
  of active listings, newest first, each with its tags, then the free-text
  filter on title, company and location and the exact tag-slug filter.
 */
module Listings {
  import opened Options
  import opened Text

  /** A row of the users table; the password is only ever stored hashed. */
  datatype User = User(id: nat, name: string, email: string, passwordHash: string, isStripeCustomer: bool)

  /**
    A row of the listings table.  `owner` is the id of the user who paid for it.
    The table's creation time is represented by insertion order: a later row is newer.
   */
  datatype Listing = Listing(
    id: nat,
    owner: nat,
    title: string,
    slug: string,
    company: string,
    logo: string,
    location: string,
    applyLink: string,
    content: string,
    isHighlighted: bool,
    isActive: bool)

  /** A row of the tags table. */
  datatype Tag = Tag(id: nat, name: string, slug: string)

  /** A row of the listing-tag pivot table. */
  datatype PivotRow = PivotRow(tagId: nat, listingId: nat)

  /** A row of the clicks table. */
  datatype Click = Click(listingId: nat, userAgent: string, ip: string)

  /** A listing as the index loads it: with its tags eagerly attached. */
  datatype Entry = Entry(listing: Listing, tags: seq<Tag>)

  // ---------------------------------------------------------------------
  // Order-preserving selection
  // ---------------------------------------------------------------------

  /** `a` is obtained from `b` by deleting elements, without reordering. */
  predicate IsSubsequence<T(==)>(a: seq<T>, b: seq<T>)
    decreases |b|
  {
    a == [] || (b != [] && ((a[0] == b[0] && IsSubsequence(a[1..], b[1..])) || IsSubsequence(a, b[1..])))
  }

  lemma {:induction false} SubsequenceTransitive<T>(a: seq<T>, b: seq<T>, c: seq<T>)
    requires IsSubsequence(a, b) && IsSubsequence(b, c)
    ensures IsSubsequence(a, c)
    decreases |c|
  {
    if a != [] {
      if IsSubsequence(b, c[1..]) {
        SubsequenceTransitive(a, b, c[1..]);
      } else if a[0] == b[0] && IsSubsequence(a[1..], b[1..]) {
        SubsequenceTransitive(a[1..], b[1..], c[1..]);
      } else {
        SubsequenceTransitive(a, b[1..], c[1..]);
      }
    }
  }

  /** A subsequence adds nothing: each of its elements comes from the longer sequence. */
  lemma {:induction false} SubsequenceMembers<T>(a: seq<T>, b: seq<T>)
    requires IsSubsequence(a, b)
    ensures forall x :: x in a ==> x in b
    decreases |b|
  {
    if a != [] {
      if a[0] == b[0] && IsSubsequence(a[1..], b[1..]) {
        SubsequenceMembers(a[1..], b[1..]);
        assert forall x :: x in a ==> x == a[0] || x in a[1..];
      } else {
        SubsequenceMembers(a, b[1..]);
      }
    }
  }

  lemma {:induction false} SubsequenceReflexive<T>(a: seq<T>)
    ensures IsSubsequence(a, a)
  {
    if a != [] {
      SubsequenceReflexive(a[1..]);
    }
  }

  /** The Collection::filter of the index: the elements satisfying `p`, in their order. */
  function Keep<T>(xs: seq<T>, p: T -> bool): seq<T>
  {
    if xs == [] then []
    else (if p(xs[0]) then [xs[0]] else []) + Keep(xs[1..], p)
  }

  /** An element survives the filter exactly when it was there and passes the test. */
  lemma {:induction false} KeepMembers<T>(xs: seq<T>, p: T -> bool)
    ensures forall x :: x in Keep(xs, p) <==> x in xs && p(x)
  {
    if xs != [] {
      KeepMembers(xs[1..], p);
      assert forall x :: x in xs <==> x == xs[0] || x in xs[1..];
    }
  }

  /** The filter only deletes: the survivors keep their relative order. */
  lemma {:induction false} KeepIsSubsequence<T>(xs: seq<T>, p: T -> bool)
    ensures IsSubsequence(Keep(xs, p), xs)
  {
    if xs != [] {
      KeepIsSubsequence(xs[1..], p);
      var rest := Keep(xs[1..], p);
      if p(xs[0]) {
        assert Keep(xs, p) == [xs[0]] + rest;
        assert Keep(xs, p)[1..] == rest;
      } else {
        assert Keep(xs, p) == rest;
        if rest != [] {
          assert IsSubsequence(rest, xs[1..]);
        }
      }
    }
  }

  // ---------------------------------------------------------------------
  // The base set: active listings, newest first, with their tags
  // ---------------------------------------------------------------------

  /** The tags the pivot attaches to listing `lid`, one per pivot row, in row order. */
  function TagsOf(tags: seq<Tag>, pivot: seq<PivotRow>, lid: nat): seq<Tag>
  {
    if pivot == [] then []
    else
      var row := pivot[0];
      (if row.listingId == lid && 1 <= row.tagId <= |tags| then [tags[row.tagId - 1]] else [])
      + TagsOf(tags, pivot[1..], lid)
  }

  /** A listing carries a tag with slug `s` exactly when some pivot row links it to such a tag. */
  lemma {:induction false} TagsOfSlug(tags: seq<Tag>, pivot: seq<PivotRow>, lid: nat, s: string)
    ensures (exists t :: t in TagsOf(tags, pivot, lid) && t.slug == s)
        <==> (exists k :: 0 <= k < |pivot| && LinksTo(tags, pivot[k], lid, s))
  {
    if pivot != [] {
      TagsOfSlug(tags, pivot[1..], lid, s);
      var head := if pivot[0].listingId == lid && 1 <= pivot[0].tagId <= |tags|
        then [tags[pivot[0].tagId - 1]] else [];
      assert TagsOf(tags, pivot, lid) == head + TagsOf(tags, pivot[1..], lid);
      if k :| 0 <= k < |pivot| && LinksTo(tags, pivot[k], lid, s) {
        if k > 0 {
          assert LinksTo(tags, pivot[1..][k - 1], lid, s);
        }
      }
      if k :| 0 <= k < |pivot[1..]| && LinksTo(tags, pivot[1..][k], lid, s) {
        assert LinksTo(tags, pivot[k + 1], lid, s);
      }
    }
  }

  /** The pivot row links listing `lid` to an existing tag whose slug is `s`. */
  predicate LinksTo(tags: seq<Tag>, row: PivotRow, lid: nat, s: string)
  {
    row.listingId == lid && 1 <= row.tagId <= |tags| && tags[row.tagId - 1].slug == s
  }

  /**
    `Listing::where('is_active', true)->with('tags')->latest()->get()`: the
    active listings, newest first (reverse insertion order), each with its tags.
   */
  function ActiveNewestFirst(listings: seq<Listing>, tags: seq<Tag>, pivot: seq<PivotRow>): seq<Entry>
  {
    if listings == [] then []
    else
      ActiveNewestFirst(listings[1..], tags, pivot)
      + (if listings[0].isActive then [Entry(listings[0], TagsOf(tags, pivot, listings[0].id))] else [])
  }

  /** Exactly the active listings make up the base set, each with the tags the pivot gives it. */
  lemma {:induction false} ActiveNewestFirstMembers(listings: seq<Listing>, tags: seq<Tag>, pivot: seq<PivotRow>)
    ensures forall e :: e in ActiveNewestFirst(listings, tags, pivot) <==>
      e.listing in listings && e.listing.isActive && e.tags == TagsOf(tags, pivot, e.listing.id)
  {
    if listings != [] {
      ActiveNewestFirstMembers(listings[1..], tags, pivot);
      assert forall l :: l in listings <==> l == listings[0] || l in listings[1..];
    }
  }

  /** The listings are stored oldest first: ids grow with insertion. */
  predicate IdsIncreasing(listings: seq<Listing>)
  {
    forall i, j :: 0 <= i < j < |listings| ==> listings[i].id < listings[j].id
  }

  /** Entries in strictly decreasing id order: newest first. */
  predicate NewestFirst(r: seq<Entry>)
  {
    forall i, j :: 0 <= i < j < |r| ==> r[i].listing.id > r[j].listing.id
  }

  /** When ids grow with insertion, the base set is ordered newest first. */
  lemma {:induction false} ActiveNewestFirstOrdered(listings: seq<Listing>, tags: seq<Tag>, pivot: seq<PivotRow>)
    requires IdsIncreasing(listings)
    ensures NewestFirst(ActiveNewestFirst(listings, tags, pivot))
  {
    if listings != [] {
      var rest := ActiveNewestFirst(listings[1..], tags, pivot);
      ActiveNewestFirstOrdered(listings[1..], tags, pivot);
      ActiveNewestFirstMembers(listings[1..], tags, pivot);
      if listings[0].isActive {
        var last := Entry(listings[0], TagsOf(tags, pivot, listings[0].id));
        var r := rest + [last];
        forall i | 0 <= i < |rest| ensures rest[i].listing.id > listings[0].id {
          assert rest[i] in rest;
          var k :| 0 <= k < |listings[1..]| && listings[1..][k] == rest[i].listing;
          assert listings[k + 1] == rest[i].listing;
        }
        forall i, j | 0 <= i < j < |r| ensures r[i].listing.id > r[j].listing.id {
          if j < |rest| {
            assert r[i] == rest[i] && r[j] == rest[j];
          } else {
            assert r[i] == rest[i] && r[j] == last;
          }
        }
      }
    }
  }

  /** Deleting entries from a newest-first sequence leaves it newest first. */
  lemma {:induction false} SubsequenceNewestFirst(a: seq<Entry>, b: seq<Entry>)
    requires IsSubsequence(a, b) && NewestFirst(b)
    ensures NewestFirst(a)
    decreases |b|
  {
    if a != [] {
      assert NewestFirst(b[1..]) by {
        forall i, j | 0 <= i < j < |b[1..]| ensures b[1..][i].listing.id > b[1..][j].listing.id {
          assert b[1..][i] == b[i + 1] && b[1..][j] == b[j + 1];
        }
      }
      if a[0] == b[0] && IsSubsequence(a[1..], b[1..]) {
        SubsequenceNewestFirst(a[1..], b[1..]);
        SubsequenceMembers(a[1..], b[1..]);
        forall i, j | 0 <= i < j < |a| ensures a[i].listing.id > a[j].listing.id {
          assert a[j] == a[1..][j - 1];
          assert a[j] in b[1..];
          var k :| 0 <= k < |b[1..]| && b[1..][k] == a[j];
          assert b[k + 1] == a[j];
          if i > 0 {
            assert a[i] == a[1..][i - 1];
          }
        }
      } else {
        SubsequenceNewestFirst(a, b[1..]);
      }
    }
  }

  // ---------------------------------------------------------------------
  // The two filters of the index
  // ---------------------------------------------------------------------

  /** The free-text closure: the lower-cased query occurs in the lower-cased title, company or location. */
  predicate MatchesQuery(l: Listing, query: string)
  {
    StrContains(ToLower(l.title), query)
    || StrContains(ToLower(l.company), query)
    || StrContains(ToLower(l.location), query)
  }

  /** The tag closure, `$listing->tags->contains('slug', $tag)`. */
  predicate HasTagSlug(e: Entry, slug: string)
  {
    exists t :: t in e.tags && t.slug == slug
  }

  /** The filtering part of the index, applied to the base set. */
  function Search(base: seq<Entry>, s: Option<string>, tag: Option<string>): seq<Entry>
  {
    var afterQuery :=
      if s.Some? then Keep(base, (e: Entry) => MatchesQuery(e.listing, ToLower(s.value))) else base;
    if tag.Some? then Keep(afterQuery, (e: Entry) => HasTagSlug(e, tag.value)) else afterQuery
  }

  /**
    An entry of the base set is in the result exactly when it passes every
    filter whose parameter is present; an absent parameter skips its filter.
   */
  lemma SearchMembers(base: seq<Entry>, s: Option<string>, tag: Option<string>)
    ensures forall e :: e in Search(base, s, tag) <==>
      && e in base
      && (s.Some? ==> MatchesQuery(e.listing, ToLower(s.value)))
      && (tag.Some? ==> HasTagSlug(e, tag.value))
  {
    var afterQuery :=
      if s.Some? then Keep(base, (e: Entry) => MatchesQuery(e.listing, ToLower(s.value))) else base;
    if s.Some? {
      KeepMembers(base, (e: Entry) => MatchesQuery(e.listing, ToLower(s.value)));
    }
    if tag.Some? {
      KeepMembers(afterQuery, (e: Entry) => HasTagSlug(e, tag.value));
    }
  }

  /** The result is the base set with entries deleted and the newest-first order kept. */
  lemma SearchIsSubsequence(base: seq<Entry>, s: Option<string>, tag: Option<string>)
    ensures IsSubsequence(Search(base, s, tag), base)
  {
    var afterQuery :=
      if s.Some? then Keep(base, (e: Entry) => MatchesQuery(e.listing, ToLower(s.value))) else base;
    if s.Some? {
      KeepIsSubsequence(base, (e: Entry) => MatchesQuery(e.listing, ToLower(s.value)));
    } else {
      SubsequenceReflexive(base);
    }
    if tag.Some? {
      KeepIsSubsequence(afterQuery, (e: Entry) => HasTagSlug(e, tag.value));
      SubsequenceTransitive(Search(base, s, tag), afterQuery, base);
    }
  }

  /** An empty query matches nothing, because Str::contains never matches an empty needle. */
  lemma EmptyQueryFindsNothing(base: seq<Entry>, tag: Option<string>)
    ensures Search(base, Some(""), tag) == []
  {
    var p := (e: Entry) => MatchesQuery(e.listing, ToLower(""));
    assert forall e :: !p(e);
    KeepNone(base, p);
  }

  lemma {:induction false} KeepNone<T>(xs: seq<T>, p: T -> bool)
    requires forall x :: !p(x)
    ensures Keep(xs, p) == []
  {
    if xs != [] {
      KeepNone(xs[1..], p);
    }
  }
}
