/**
  Tag resolution for a paid listing: every comma-separated token of the
  submitted tags field is trimmed and slugged, the tag with that slug is found
  or created (`Tag::firstOrCreate`), and one pivot row is added linking it to
  the listing (`attach`, with no duplicate guard).
 */
module Tagging {
  import opened Options
  import opened Text
  import opened Listings

  /** The key a token is filed under: `Str::slug(trim($token))`. */
  function TagKey(token: string): string
  {
    Slug(Trim(token))
  }

  /** The display name a token gives a tag it creates: `ucwords(trim($token))`. */
  function TagName(token: string): string
  {
    UcWords(Trim(token))
  }

  /** A token as the loop uses it: the slug it is looked up by and the name it would give a new tag. */
  datatype Submitted = Submitted(key: string, name: string)

  function Prepare(token: string): Submitted
  {
    Submitted(TagKey(token), TagName(token))
  }

  /** The tokens of the submitted tags field, `explode(',', $tags)`, each prepared. */
  function PrepareField(field: string): seq<Submitted>
  {
    var tokens := Explode(field, ',');
    seq(|tokens|, k requires 0 <= k < |tokens| => Prepare(tokens[k]))
  }

  /** The name a token gives slugs back to the token's key, and that key is a well-formed slug. */
  lemma PreparedSelfSlugged(token: string)
    ensures SelfSlugged(Tag(0, Prepare(token).name, Prepare(token).key))
  {
    SlugIsSlug(Trim(token));
    LowerUcWordsFrom(Trim(token), true);
    SlugIgnoresCase(TagName(token), Trim(token));
  }

  /** Tokens equal up to letter case and surrounding white space are filed under the same tag. */
  lemma SameKeyUpToCase(a: string, b: string)
    requires ToLower(Trim(a)) == ToLower(Trim(b))
    ensures TagKey(a) == TagKey(b)
  {
    SlugIgnoresCase(Trim(a), Trim(b));
  }

  // ---------------------------------------------------------------------
  // The tags table
  // ---------------------------------------------------------------------

  /**
    The tags table as this workflow keeps it: auto-increment ids and one tag
    per slug.
   */
  ghost predicate WellFormedTags(tags: seq<Tag>)
  {
    IdsSequential(tags) && (forall i, j :: 0 <= i < j < |tags| ==> tags[i].slug != tags[j].slug)
  }

  /** Auto-increment ids: the tag at position i has id i + 1. */
  ghost predicate IdsSequential(tags: seq<Tag>)
  {
    forall i :: 0 <= i < |tags| ==> tags[i].id == i + 1
  }

  /** A tag as this workflow creates it: a well-formed slug that is the slug of its own name. */
  ghost predicate SelfSlugged(t: Tag)
  {
    IsSlug(t.slug) && Slug(t.name) == t.slug
  }

  /** The slugs present in the tags table. */
  function Slugs(tags: seq<Tag>): set<string>
    decreases |tags|
  {
    if tags == [] then {} else Slugs(tags[..|tags| - 1]) + {tags[|tags| - 1].slug}
  }

  /** The keys of a list of tokens. */
  function Keys(subs: seq<Submitted>): set<string>
    decreases |subs|
  {
    if subs == [] then {} else Keys(subs[..|subs| - 1]) + {subs[|subs| - 1].key}
  }

  lemma {:induction false} InSlugs(tags: seq<Tag>, s: string)
    ensures s in Slugs(tags) <==> exists i :: 0 <= i < |tags| && tags[i].slug == s
    decreases |tags|
  {
    if tags != [] {
      var front := tags[..|tags| - 1];
      InSlugs(front, s);
      if i :| 0 <= i < |front| && front[i].slug == s {
        assert tags[i].slug == s;
      }
      if i :| 0 <= i < |tags| - 1 && tags[i].slug == s {
        assert front[i].slug == s;
      }
    }
  }

  lemma {:induction false} InKeys(subs: seq<Submitted>, s: string)
    ensures s in Keys(subs) <==> exists i :: 0 <= i < |subs| && subs[i].key == s
    decreases |subs|
  {
    if subs != [] {
      var front := subs[..|subs| - 1];
      InKeys(front, s);
      if i :| 0 <= i < |front| && front[i].key == s {
        assert subs[i].key == s;
      }
      if i :| 0 <= i < |subs| - 1 && subs[i].key == s {
        assert front[i].key == s;
      }
    }
  }

  /** The query `where slug = ? limit 1`: the first tag with this slug, if any. */
  function FindSlug(tags: seq<Tag>, slug: string): (r: Option<nat>)
    ensures r.Some? ==> r.value < |tags| && tags[r.value].slug == slug
    ensures r.Some? ==> forall j :: 0 <= j < r.value ==> tags[j].slug != slug
    ensures r.None? ==> forall j :: 0 <= j < |tags| ==> tags[j].slug != slug
  {
    if tags == [] then None
    else if tags[0].slug == slug then Some(0)
    else match FindSlug(tags[1..], slug)
      case None => None
      case Some(i) => Some(i + 1)
  }

  /** `Tag::firstOrCreate(['slug' => key], ['name' => name])`: the new table and the tag's id. */
  function FindOrCreate(tags: seq<Tag>, sub: Submitted): (seq<Tag>, nat)
  {
    match FindSlug(tags, sub.key)
    case Some(i) => (tags, tags[i].id)
    case None => (tags + [Tag(|tags| + 1, sub.name, sub.key)], |tags| + 1)
  }

  /**
    Find-or-create keeps the table well formed, never changes an existing tag,
    creates a tag exactly when the key is new (named after this token), and
    yields the id of the tag carrying the key.
   */
  lemma FindOrCreateSpec(tags: seq<Tag>, sub: Submitted)
    requires WellFormedTags(tags)
    ensures var (t, id) := FindOrCreate(tags, sub);
      && WellFormedTags(t)
      && |tags| <= |t| && t[..|tags|] == tags
      && 1 <= id <= |t| && t[id - 1].slug == sub.key
      && Slugs(t) == Slugs(tags) + {sub.key}
      && (sub.key in Slugs(tags) ==> t == tags)
      && (sub.key !in Slugs(tags) ==> t == tags + [Tag(|tags| + 1, sub.name, sub.key)])
  {
    FindOrCreateSlugs(tags, sub);
    FindOrCreateId(tags, sub);
    if FindSlug(tags, sub.key).None? {
      CreateSpec(tags, sub);
    }
  }

  lemma CreateSpec(tags: seq<Tag>, sub: Submitted)
    requires WellFormedTags(tags)
    requires forall j :: 0 <= j < |tags| ==> tags[j].slug != sub.key
    ensures var t := tags + [Tag(|tags| + 1, sub.name, sub.key)];
      && WellFormedTags(t)
      && t[..|tags|] == tags
      && Slugs(t) == Slugs(tags) + {sub.key}
  {
    var t := tags + [Tag(|tags| + 1, sub.name, sub.key)];
    assert t[..|tags|] == tags;
    forall i | 0 <= i < |t| ensures t[i].id == i + 1 {
      if i < |tags| { assert t[i] == tags[i]; }
    }
    forall i, j | 0 <= i < j < |t| ensures t[i].slug != t[j].slug {
      assert t[i] == tags[i];
      if j < |tags| { assert t[j] == tags[j]; }
    }
  }

  // ---------------------------------------------------------------------
  // The attach loop, as a specification
  // ---------------------------------------------------------------------

  /** One iteration: find or create the token's tag and add one pivot row for it. */
  function AttachOne(tags: seq<Tag>, pivot: seq<PivotRow>, sub: Submitted, lid: nat): (seq<Tag>, seq<PivotRow>)
  {
    var (t, id) := FindOrCreate(tags, sub);
    (t, pivot + [PivotRow(id, lid)])
  }

  /** The tables after handling `subs` from left to right for listing `lid`. */
  function AttachAll(tags: seq<Tag>, pivot: seq<PivotRow>, subs: seq<Submitted>, lid: nat): (seq<Tag>, seq<PivotRow>)
    decreases |subs|
  {
    if subs == [] then (tags, pivot)
    else
      var (t, p) := AttachAll(tags, pivot, subs[..|subs| - 1], lid);
      AttachOne(t, p, subs[|subs| - 1], lid)
  }

  /** Pivot row `row` links listing `lid` to a tag of `t` whose slug is `key`. */
  ghost predicate LinksKey(t: seq<Tag>, row: PivotRow, lid: nat, key: string)
  {
    row.listingId == lid && 1 <= row.tagId <= |t| && t[row.tagId - 1].slug == key
  }

  /** The k-th new pivot row links listing `lid` to the tag whose slug is the k-th token's key. */
  ghost predicate RowsFollow(t: seq<Tag>, p: seq<PivotRow>, base: nat, subs: seq<Submitted>, lid: nat)
  {
    && |p| == base + |subs|
    && forall k :: 0 <= k < |subs| ==> LinksKey(t, p[base + k], lid, subs[k].key)
  }

  /**
    The attach loop keeps the tags table well formed, leaves every existing tag
    (and its name) alone and adds exactly the keys of the tokens to the slugs.
   */
  lemma {:induction false} AttachAllTags(tags: seq<Tag>, pivot: seq<PivotRow>, subs: seq<Submitted>, lid: nat)
    requires WellFormedTags(tags)
    ensures WellFormedTags(AttachAll(tags, pivot, subs, lid).0)
    ensures |tags| <= |AttachAll(tags, pivot, subs, lid).0|
    ensures AttachAll(tags, pivot, subs, lid).0[..|tags|] == tags
    ensures Slugs(AttachAll(tags, pivot, subs, lid).0) == Slugs(tags) + Keys(subs)
    decreases |subs|
  {
    AttachAllSlugs(tags, pivot, subs, lid);
    if subs == [] {
      assert tags[..|tags|] == tags;
    } else {
      var t1 := AttachAll(tags, pivot, subs[..|subs| - 1], lid).0;
      AttachAllTags(tags, pivot, subs[..|subs| - 1], lid);
      AttachAllStep(tags, pivot, subs, lid);
      FindOrCreateSpec(t1, subs[|subs| - 1]);
      PrefixOfPrefix(tags, t1, AttachAll(tags, pivot, subs, lid).0);
    }
  }

  /** Handling one more token is one more find-or-create on the tags table. */
  lemma AttachAllStep(tags: seq<Tag>, pivot: seq<PivotRow>, subs: seq<Submitted>, lid: nat)
    requires subs != []
    ensures AttachAll(tags, pivot, subs, lid).0
         == FindOrCreate(AttachAll(tags, pivot, subs[..|subs| - 1], lid).0, subs[|subs| - 1]).0
  {
  }

  /** A prefix of a prefix is a prefix. */
  lemma PrefixOfPrefix<T>(a: seq<T>, b: seq<T>, c: seq<T>)
    requires |a| <= |b| && b[..|a|] == a
    requires |b| <= |c| && c[..|b|] == b
    ensures |a| <= |c| && c[..|a|] == a
  {
    assert c[..|a|] == c[..|b|][..|a|];
  }

  /** The id find-or-create yields is that of the tag carrying the key, and no existing tag moves. */
  lemma FindOrCreateId(tags: seq<Tag>, sub: Submitted)
    requires IdsSequential(tags)
    ensures var (t, id) := FindOrCreate(tags, sub);
      IdsSequential(t) && |tags| <= |t| && t[..|tags|] == tags && 1 <= id <= |t| && t[id - 1].slug == sub.key
  {
    assert tags[..|tags|] == tags;
    var t := tags + [Tag(|tags| + 1, sub.name, sub.key)];
    assert t[..|tags|] == tags;
  }

  /** Find-or-create adds the key to the slugs, and appends a tag named after the token exactly when the key is new. */
  lemma FindOrCreateSlugs(tags: seq<Tag>, sub: Submitted)
    ensures var t := FindOrCreate(tags, sub).0;
      && Slugs(t) == Slugs(tags) + {sub.key}
      && (sub.key in Slugs(tags) ==> t == tags)
      && (sub.key !in Slugs(tags) ==> t == tags + [Tag(|tags| + 1, sub.name, sub.key)])
  {
    InSlugs(tags, sub.key);
    var t := tags + [Tag(|tags| + 1, sub.name, sub.key)];
    assert t[..|tags|] == tags;
  }

  /** The slugs after the loop are the slugs before it plus the keys of the tokens. */
  lemma {:induction false} AttachAllSlugs(tags: seq<Tag>, pivot: seq<PivotRow>, subs: seq<Submitted>, lid: nat)
    ensures Slugs(AttachAll(tags, pivot, subs, lid).0) == Slugs(tags) + Keys(subs)
    decreases |subs|
  {
    if subs != [] {
      var front := subs[..|subs| - 1];
      AttachAllSlugs(tags, pivot, front, lid);
      FindOrCreateSlugs(AttachAll(tags, pivot, front, lid).0, subs[|subs| - 1]);
    }
  }

  /** The loop keeps the ids of the tags table sequential. */
  lemma {:induction false} AttachAllIds(tags: seq<Tag>, pivot: seq<PivotRow>, subs: seq<Submitted>, lid: nat)
    requires IdsSequential(tags)
    ensures IdsSequential(AttachAll(tags, pivot, subs, lid).0)
    decreases |subs|
  {
    if subs != [] {
      var front := subs[..|subs| - 1];
      AttachAllIds(tags, pivot, front, lid);
      FindOrCreateId(AttachAll(tags, pivot, front, lid).0, subs[|subs| - 1]);
    }
  }

  /** The loop appends one pivot row per token, in token order, each linking the listing to the token's tag. */
  lemma {:induction false} AttachAllPivot(tags: seq<Tag>, pivot: seq<PivotRow>, subs: seq<Submitted>, lid: nat)
    requires IdsSequential(tags)
    ensures |pivot| <= |AttachAll(tags, pivot, subs, lid).1|
    ensures AttachAll(tags, pivot, subs, lid).1[..|pivot|] == pivot
    ensures RowsFollow(AttachAll(tags, pivot, subs, lid).0, AttachAll(tags, pivot, subs, lid).1, |pivot|, subs, lid)
    decreases |subs|
  {
    if subs == [] {
      assert pivot[..|pivot|] == pivot;
    } else {
      var front := subs[..|subs| - 1];
      var last := subs[|subs| - 1];
      AttachAllPivot(tags, pivot, front, lid);
      AttachAllIds(tags, pivot, front, lid);
      var t1 := AttachAll(tags, pivot, front, lid).0;
      var p1 := AttachAll(tags, pivot, front, lid).1;
      FindOrCreateId(t1, last);
      var t := FindOrCreate(t1, last).0;
      var id := FindOrCreate(t1, last).1;
      var p := p1 + [PivotRow(id, lid)];
      assert AttachAll(tags, pivot, subs, lid).0 == t;
      assert AttachAll(tags, pivot, subs, lid).1 == p;
      assert p[..|pivot|] == p1[..|pivot|];
      RowsFollowSnoc(t1, p1, t, id, |pivot|, front, last, lid);
      assert front + [last] == subs;
    }
  }

  lemma RowsFollowSnoc(t1: seq<Tag>, p1: seq<PivotRow>, t: seq<Tag>, id: nat, base: nat,
                       front: seq<Submitted>, last: Submitted, lid: nat)
    requires RowsFollow(t1, p1, base, front, lid)
    requires |t1| <= |t| && t[..|t1|] == t1
    requires 1 <= id <= |t| && t[id - 1].slug == last.key
    ensures RowsFollow(t, p1 + [PivotRow(id, lid)], base, front + [last], lid)
  {
    var p := p1 + [PivotRow(id, lid)];
    var subs := front + [last];
    forall k | 0 <= k < |subs| ensures LinksKey(t, p[base + k], lid, subs[k].key) {
      if k < |front| {
        assert p[base + k] == p1[base + k] && subs[k] == front[k];
        LinksKeyExtend(t1, t, p1[base + k], lid, front[k].key);
      } else {
        assert p[base + k] == PivotRow(id, lid) && subs[k] == last;
      }
    }
  }

  /** A link to a tag stays a link when the table grows at its end. */
  lemma LinksKeyExtend(t1: seq<Tag>, t: seq<Tag>, row: PivotRow, lid: nat, key: string)
    requires LinksKey(t1, row, lid, key)
    requires |t1| <= |t| && t[..|t1|] == t1
    ensures LinksKey(t, row, lid, key)
  {
    assert t[row.tagId - 1] == t[..|t1|][row.tagId - 1];
  }

  /** The name of the first token in `subs` whose key is `key` ("" when there is none). */
  function FirstName(subs: seq<Submitted>, key: string): string
    decreases |subs|
  {
    if subs == [] then ""
    else if key in Keys(subs[..|subs| - 1]) then FirstName(subs[..|subs| - 1], key)
    else if subs[|subs| - 1].key == key then subs[|subs| - 1].name
    else ""
  }

  /** FirstName picks the token at the first position carrying the key. */
  lemma {:induction false} FirstNameIsFirst(subs: seq<Submitted>, k: int)
    requires 0 <= k < |subs|
    requires forall m :: 0 <= m < k ==> subs[m].key != subs[k].key
    ensures FirstName(subs, subs[k].key) == subs[k].name
    decreases |subs|
  {
    var front := subs[..|subs| - 1];
    InKeys(front, subs[k].key);
    if k < |front| {
      forall m | 0 <= m < k ensures front[m].key != front[k].key {
        assert front[m] == subs[m];
      }
      assert front[k] == subs[k];
      FirstNameIsFirst(front, k);
    } else {
      forall m | 0 <= m < |front| ensures front[m].key != subs[k].key {
        assert front[m] == subs[m];
      }
    }
  }

  /** A key of the tokens is carried by a token whose name is FirstName's answer. */
  lemma {:induction false} FirstNameAt(subs: seq<Submitted>, key: string) returns (k: int)
    requires key in Keys(subs)
    ensures 0 <= k < |subs| && subs[k].key == key && subs[k].name == FirstName(subs, key)
    decreases |subs|
  {
    var front := subs[..|subs| - 1];
    if key in Keys(front) {
      k := FirstNameAt(front, key);
      assert subs[k] == front[k];
    } else {
      k := |subs| - 1;
    }
  }

  /** Every tag past the first |tags| positions of t carries a token's key and the name of the first token with it. */
  ghost predicate CreatedNamed(tags: seq<Tag>, t: seq<Tag>, subs: seq<Submitted>)
  {
    forall j :: |tags| <= j < |t| ==> t[j].slug in Keys(subs) && t[j].name == FirstName(subs, t[j].slug)
  }

  /** Every tag the loop creates carries the key of a token and the name of the first token with that key. */
  lemma {:induction false} AttachAllNames(tags: seq<Tag>, pivot: seq<PivotRow>, subs: seq<Submitted>, lid: nat)
    ensures CreatedNamed(tags, AttachAll(tags, pivot, subs, lid).0, subs)
    decreases |subs|
  {
    if subs != [] {
      var front := subs[..|subs| - 1];
      var last := subs[|subs| - 1];
      var t1 := AttachAll(tags, pivot, front, lid).0;
      AttachAllNames(tags, pivot, front, lid);
      AttachAllSlugs(tags, pivot, front, lid);
      FindOrCreateSlugs(t1, last);
      AttachAllStep(tags, pivot, subs, lid);
      assert front + [last] == subs;
      NamedSnoc(tags, t1, FindOrCreate(t1, last).0, front, last);
    }
  }

  lemma NamedSnoc(tags: seq<Tag>, t1: seq<Tag>, t: seq<Tag>, front: seq<Submitted>, last: Submitted)
    requires CreatedNamed(tags, t1, front)
    requires t == t1 || (last.key !in Keys(front) && t == t1 + [Tag(|t1| + 1, last.name, last.key)])
    ensures CreatedNamed(tags, t, front + [last])
  {
    var subs := front + [last];
    assert subs[..|subs| - 1] == front;
    forall j | |tags| <= j < |t| ensures t[j].slug in Keys(subs) && t[j].name == FirstName(subs, t[j].slug) {
      if j < |t1| {
        assert t[j] == t1[j];
      }
    }
  }

  /** Every tag the loop creates from self-slugged tokens is self-slugged, for any previous table. */
  lemma AttachAllSelfSlugged(tags: seq<Tag>, pivot: seq<PivotRow>, subs: seq<Submitted>, lid: nat)
    requires forall k :: 0 <= k < |subs| ==> SelfSlugged(Tag(0, subs[k].name, subs[k].key))
    ensures var t := AttachAll(tags, pivot, subs, lid).0;
      forall j :: |tags| <= j < |t| ==> SelfSlugged(t[j])
  {
    AttachAllNames(tags, pivot, subs, lid);
    var t := AttachAll(tags, pivot, subs, lid).0;
    forall j | |tags| <= j < |t| ensures SelfSlugged(t[j]) {
      var k := FirstNameAt(subs, t[j].slug);
      assert SelfSlugged(Tag(0, subs[k].name, subs[k].key));
    }
  }

  /** Every tag created for a submitted tags field is self-slugged: its slug is the slug of its name. */
  lemma AttachFieldSelfSlugged(tags: seq<Tag>, pivot: seq<PivotRow>, field: string, lid: nat)
    ensures var t := AttachAll(tags, pivot, PrepareField(field), lid).0;
      forall j :: |tags| <= j < |t| ==> SelfSlugged(t[j])
  {
    var subs := PrepareField(field);
    forall k | 0 <= k < |subs| ensures SelfSlugged(Tag(0, subs[k].name, subs[k].key)) {
      PreparedSelfSlugged(Explode(field, ',')[k]);
    }
    AttachAllSelfSlugged(tags, pivot, subs, lid);
  }


  /** When every token's key is already a slug of the table, the loop creates no tag. */
  lemma {:induction false} AttachKnownCreatesNothing(tags: seq<Tag>, pivot: seq<PivotRow>, subs: seq<Submitted>, lid: nat)
    requires WellFormedTags(tags)
    requires Keys(subs) <= Slugs(tags)
    ensures AttachAll(tags, pivot, subs, lid).0 == tags
    decreases |subs|
  {
    if subs != [] {
      var front := subs[..|subs| - 1];
      var last := subs[|subs| - 1];
      AttachKnownCreatesNothing(tags, pivot, front, lid);
      var p1 := AttachAll(tags, pivot, front, lid).1;
      FindOrCreateSpec(tags, last);
      assert AttachAll(tags, pivot, subs, lid) == AttachOne(tags, p1, last, lid);
    }
  }

  /** Submitting the same tokens again (for any listing) finds every tag: no tag is created twice. */
  lemma AttachIdempotentOnTags(tags: seq<Tag>, pivot: seq<PivotRow>, subs: seq<Submitted>, lid: nat, lid2: nat)
    requires WellFormedTags(tags)
    ensures var (t, p) := AttachAll(tags, pivot, subs, lid);
      AttachAll(t, p, subs, lid2).0 == t
  {
    AttachAllTags(tags, pivot, subs, lid);
    var (t, p) := AttachAll(tags, pivot, subs, lid);
    AttachKnownCreatesNothing(t, p, subs, lid2);
  }

  /** In a table with one tag per slug there are as many tags as distinct slugs. */
  lemma {:induction false} SlugsCount(tags: seq<Tag>)
    requires forall i, j :: 0 <= i < j < |tags| ==> tags[i].slug != tags[j].slug
    ensures |Slugs(tags)| == |tags|
  {
    if tags != [] {
      var front := tags[..|tags| - 1];
      var last := tags[|tags| - 1];
      SlugsCount(front);
      InSlugs(front, last.slug);
      forall j | 0 <= j < |front| ensures front[j].slug != last.slug {
        assert tags[j] == front[j];
      }
    }
  }

  /**
    The loop creates exactly one tag per distinct new slug: duplicates of a
    token (up to case and surrounding space) and already known slugs add none.
   */
  lemma AttachCreatesOnePerNewSlug(tags: seq<Tag>, pivot: seq<PivotRow>, subs: seq<Submitted>, lid: nat)
    requires WellFormedTags(tags)
    ensures |AttachAll(tags, pivot, subs, lid).0| == |tags| + |Keys(subs) - Slugs(tags)|
  {
    AttachAllTags(tags, pivot, subs, lid);
    var t := AttachAll(tags, pivot, subs, lid).0;
    SlugsCount(tags);
    SlugsCount(t);
    assert Slugs(t) == Slugs(tags) + (Keys(subs) - Slugs(tags));
  }

  /**
    A blank tags field is still one token, with the empty key: the listing is
    linked to a tag whose slug is "" (created on first use).
   */
  lemma BlankFieldLinksEmptySlug(tags: seq<Tag>, pivot: seq<PivotRow>, lid: nat)
    requires IdsSequential(tags)
    ensures var (t, p) := AttachAll(tags, pivot, PrepareField(""), lid);
      && |p| == |pivot| + 1 && p[|pivot|].listingId == lid
      && 1 <= p[|pivot|].tagId <= |t| && t[p[|pivot|].tagId - 1].slug == ""
  {
    BlankFieldOneEmptyKey();
    OneTokenLinks(tags, pivot, PrepareField(""), lid);
  }

  /** A single token adds one pivot row, linking the listing to the tag with the token's key. */
  lemma OneTokenLinks(tags: seq<Tag>, pivot: seq<PivotRow>, subs: seq<Submitted>, lid: nat)
    requires IdsSequential(tags) && |subs| == 1
    ensures var (t, p) := AttachAll(tags, pivot, subs, lid);
      |p| == |pivot| + 1 && LinksKey(t, p[|pivot|], lid, subs[0].key)
  {
    AttachAllPivot(tags, pivot, subs, lid);
    var (t, p) := AttachAll(tags, pivot, subs, lid);
    assert LinksKey(t, p[|pivot| + 0], lid, subs[0].key);
  }

  /** `explode(',', "")` is one empty token, whose key is empty. */
  lemma BlankFieldOneEmptyKey()
    ensures |PrepareField("")| == 1 && PrepareField("")[0].key == ""
  {
    assert Explode("", ',') == [[]];
    assert TagKey("") == "" by {
      assert Trim("") == "";
      assert Explode("", '-') == [[]];
      assert NonEmpty([[]]) == [];
    }
  }
}
