/** The links table as the batch scripts see it, with its unique index on the domain
    and the lower-cased slug. */
module LinkTable {
  import opened Options

  const SLUG_MAX := 64

  datatype Link = Link(
    id: nat,
    workspaceId: string,
    domainId: string,
    slug: string,
    destination: string,
    managedBy: Option<string>)

  /** Lower case as the database's `lower` has it and as `toLowerCase` does. */
  datatype Folding = Folding(db: string -> string, js: string -> string)

  /** The two agree on the slug. */
  predicate Alike(fold: Folding, slug: string) {
    fold.db(slug) == fold.js(slug)
  }

  predicate Claims(fold: Folding, l: Link, domainId: string, slug: string) {
    l.domainId == domainId && fold.db(l.slug) == fold.db(slug)
  }

  /** The unique index refuses the slug. */
  predicate Held(fold: Folding, links: seq<Link>, domainId: string, slug: string) {
    exists i :: 0 <= i < |links| && Claims(fold, links[i], domainId, slug)
  }

  /** What the scripts ask before they insert: lower(slug) = slug.toLowerCase(). */
  predicate Matches(fold: Folding, l: Link, domainId: string, slug: string) {
    l.domainId == domainId && fold.db(l.slug) == fold.js(slug)
  }

  predicate Found(fold: Folding, links: seq<Link>, domainId: string, slug: string) {
    exists i :: 0 <= i < |links| && Matches(fold, links[i], domainId, slug)
  }

  /** The lookup foresees the index exactly where the two foldings agree on the slug. */
  lemma FoundIsHeld(fold: Folding, links: seq<Link>, domainId: string, slug: string)
    requires Alike(fold, slug)
    ensures Found(fold, links, domainId, slug) <==> Held(fold, links, domainId, slug)
  {
    assert forall i :: 0 <= i < |links| ==>
      (Matches(fold, links[i], domainId, slug) <==> Claims(fold, links[i], domainId, slug));
  }

  /** links_domain_slug_key, and the column's width. */
  predicate Unique(fold: Folding, links: seq<Link>) {
    && (forall i, j :: 0 <= i < j < |links| ==> !Claims(fold, links[i], links[j].domainId, links[j].slug))
    && (forall i :: 0 <= i < |links| ==> |links[i].slug| <= SLUG_MAX)
  }

  method Lookup(fold: Folding, links: seq<Link>, domainId: string, slug: string) returns (taken: bool)
    ensures taken == Found(fold, links, domainId, slug)
  {
    for i := 0 to |links|
      invariant forall j :: 0 <= j < i ==> !Matches(fold, links[j], domainId, slug)
    {
      if links[i].domainId == domainId && fold.db(links[i].slug) == fold.js(slug) {
        return true;
      }
    }
    return false;
  }

  /** The index's own check of a new row. */
  method Violates(fold: Folding, links: seq<Link>, domainId: string, slug: string) returns (held: bool)
    ensures held == Held(fold, links, domainId, slug)
  {
    for i := 0 to |links|
      invariant forall j :: 0 <= j < i ==> !Claims(fold, links[j], domainId, slug)
    {
      if links[i].domainId == domainId && fold.db(links[i].slug) == fold.db(slug) {
        return true;
      }
    }
    return false;
  }

  lemma AppendKeepsUnique(fold: Folding, links: seq<Link>, l: Link)
    requires Unique(fold, links) && !Held(fold, links, l.domainId, l.slug) && |l.slug| <= SLUG_MAX
    ensures Unique(fold, links + [l])
  {
  }

  lemma HeldAfterAppend(fold: Folding, links: seq<Link>, l: Link, domainId: string, slug: string)
    ensures Held(fold, links + [l], domainId, slug) <==>
      Held(fold, links, domainId, slug) || Claims(fold, l, domainId, slug)
  {
    var after := links + [l];
    if Held(fold, links, domainId, slug) {
      var i :| 0 <= i < |links| && Claims(fold, links[i], domainId, slug);
      assert Claims(fold, after[i], domainId, slug);
    }
    if Claims(fold, l, domainId, slug) {
      assert Claims(fold, after[|links|], domainId, slug);
    }
  }

  lemma HeldInExtension(fold: Folding, links: seq<Link>, more: seq<Link>, domainId: string, slug: string)
    requires links <= more
    ensures Held(fold, links, domainId, slug) ==> Held(fold, more, domainId, slug)
    ensures Found(fold, links, domainId, slug) ==> Found(fold, more, domainId, slug)
  {
    if Held(fold, links, domainId, slug) {
      var i :| 0 <= i < |links| && Claims(fold, links[i], domainId, slug);
      assert Claims(fold, more[i], domainId, slug);
    }
    if Found(fold, links, domainId, slug) {
      var i :| 0 <= i < |links| && Matches(fold, links[i], domainId, slug);
      assert Matches(fold, more[i], domainId, slug);
    }
  }
}
