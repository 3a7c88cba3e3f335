/** The backfill of managed links for live bio pages: one pass that creates what is
    missing, leaves occupied addresses alone, and loses every race for an address to
    whoever inserted first. */
module BioBackfill {
  import opened Options
  import opened LinkTable

  datatype Page = Page(id: string, workspaceId: string, domainId: string, domain: string, slug: string)

  function AddressOf(page: Page): string {
    page.domain + "/" + page.slug
  }

  predicate Owned(links: seq<Link>, pageId: string) {
    exists i :: 0 <= i < |links| && links[i].managedBy == Some(pageId)
  }

  /** Other writers' inserts; the unique index refuses the ones that collide. */
  function Landed(fold: Folding, links: seq<Link>, rivals: seq<Link>): seq<Link> {
    if rivals == [] then links
    else
      var n := |rivals| - 1;
      var before := Landed(fold, links, rivals[..n]);
      if Held(fold, before, rivals[n].domainId, rivals[n].slug) || |rivals[n].slug| > SLUG_MAX then before
      else before + [rivals[n]]
  }

  /** What other writers insert while a page has its turn: before its first lookup, between
      its lookups, and between them and its own insert. */
  datatype Rivals = Rivals(first: seq<Link>, second: seq<Link>, third: seq<Link>) {
    predicate Has(l: Link) {
      l in first || l in second || l in third
    }
  }

  datatype Tables = Tables(links: seq<Link>, outbox: seq<nat>, nextId: nat)

  datatype Progress = Progress(tables: Tables, created: nat, collisions: seq<string>, alreadyManaged: seq<string>)

  /** The web app's page for an address, whatever it is. */
  type Destinations = (string, string) -> string

  function ManagedLink(t: Tables, page: Page, destination: Destinations): Link {
    Link(t.nextId, page.workspaceId, page.domainId, page.slug, destination(page.domain, page.slug), Some(page.id))
  }

  /** One page. A unique violation rolls the insert and its outbox row back. */
  function Step(p: Progress, fold: Folding, destination: Destinations, page: Page, rivals: Rivals): Progress {
    var first := p.tables.(links := Landed(fold, p.tables.links, rivals.first));
    if Owned(first.links, page.id) then
      p.(tables := first, alreadyManaged := p.alreadyManaged + [AddressOf(page)])
    else
      var second := first.(links := Landed(fold, first.links, rivals.second));
      if Found(fold, second.links, page.domainId, page.slug) then
        p.(tables := second, collisions := p.collisions + [AddressOf(page)])
      else
        var third := second.(links := Landed(fold, second.links, rivals.third));
        if Held(fold, third.links, page.domainId, page.slug) then
          p.(tables := third, collisions := p.collisions + [AddressOf(page)])
        else
          p.(tables := Created(third, page, destination), created := p.created + 1)
  }

  function Created(t: Tables, page: Page, destination: Destinations): Tables {
    Tables(t.links + [ManagedLink(t, page, destination)], t.outbox + [t.nextId], t.nextId + 1)
  }

  function Run(t: Tables, fold: Folding, destination: Destinations, pages: seq<Page>, rivals: seq<Rivals>): Progress
    requires |rivals| == |pages|
  {
    if pages == [] then Progress(t, 0, [], [])
    else
      var n := |pages| - 1;
      Step(Run(t, fold, destination, pages[..n], rivals[..n]), fold, destination, pages[n], rivals[n])
  }

  class Database {
    var tables: Tables
    const fold: Folding

    constructor (tables: Tables, fold: Folding)
      ensures this.tables == tables && this.fold == fold
    {
      this.tables, this.fold := tables, fold;
    }

    method Land(rivals: seq<Link>)
      modifies this
      ensures tables == old(tables).(links := Landed(fold, old(tables).links, rivals))
    {
      for i := 0 to |rivals|
        invariant tables == old(tables).(links := Landed(fold, old(tables).links, rivals[..i]))
      {
        assert rivals[..i + 1][..i] == rivals[..i];
        var violates := Violates(fold, tables.links, rivals[i].domainId, rivals[i].slug);
        if !violates && |rivals[i].slug| <= SLUG_MAX {
          tables := tables.(links := tables.links + [rivals[i]]);
        }
      }
      assert rivals[..|rivals|] == rivals;
    }

    /** SELECT id FROM links WHERE managed_bio_page_id = ... */
    method IsOwned(pageId: string) returns (owned: bool)
      ensures owned == Owned(tables.links, pageId)
    {
      for i := 0 to |tables.links|
        invariant forall j :: 0 <= j < i ==> tables.links[j].managedBy != Some(pageId)
      {
        if tables.links[i].managedBy == Some(pageId) {
          return true;
        }
      }
      return false;
    }

    /** INSERT ... INTO links and its outbox row, in one transaction. */
    method InsertManaged(link: Link) returns (ok: bool)
      modifies this
      ensures ok <==> !Held(fold, old(tables).links, link.domainId, link.slug)
      ensures tables == if ok
        then Tables(old(tables).links + [link], old(tables).outbox + [link.id], old(tables).nextId + 1)
        else old(tables)
    {
      var violates := Violates(fold, tables.links, link.domainId, link.slug);
      if violates {
        return false;
      }
      tables := Tables(tables.links + [link], tables.outbox + [link.id], tables.nextId + 1);
      return true;
    }

    method Backfill(destination: Destinations, pages: seq<Page>, rivals: seq<Rivals>)
      returns (created: nat, collisions: seq<string>, alreadyManaged: seq<string>)
      requires |rivals| == |pages|
      modifies this
      ensures Progress(tables, created, collisions, alreadyManaged)
           == Run(old(tables), fold, destination, pages, rivals)
    {
      hide Held, Found, Claims, Landed, Owned;
      created, collisions, alreadyManaged := 0, [], [];
      for i := 0 to |pages|
        invariant Progress(tables, created, collisions, alreadyManaged)
               == Run(old(tables), fold, destination, pages[..i], rivals[..i])
      {
        assert pages[..i + 1][..i] == pages[..i] && rivals[..i + 1][..i] == rivals[..i];
        var page := pages[i];
        Land(rivals[i].first);
        var owned := IsOwned(page.id);
        if owned {
          alreadyManaged := alreadyManaged + [AddressOf(page)];
          continue;
        }
        Land(rivals[i].second);
        var occupied := Lookup(fold, tables.links, page.domainId, page.slug);
        if occupied {
          collisions := collisions + [AddressOf(page)];
          continue;
        }
        Land(rivals[i].third);
        var ok := InsertManaged(ManagedLink(tables, page, destination));
        if ok {
          created := created + 1;
        } else {
          collisions := collisions + [AddressOf(page)];
        }
      }
      assert pages[..|pages|] == pages && rivals[..|pages|] == rivals;
    }
  }

  /* One page. */

  lemma {:induction false} LandedOnlyAdds(fold: Folding, links: seq<Link>, rivals: seq<Link>)
    ensures links <= Landed(fold, links, rivals)
    ensures Unique(fold, links) ==> Unique(fold, Landed(fold, links, rivals))
    ensures forall i :: |links| <= i < |Landed(fold, links, rivals)| ==> Landed(fold, links, rivals)[i] in rivals
  {
    hide Held, Unique;
    if rivals != [] {
      var n := |rivals| - 1;
      LandedOnlyAdds(fold, links, rivals[..n]);
      var before := Landed(fold, links, rivals[..n]);
      if !Held(fold, before, rivals[n].domainId, rivals[n].slug) && |rivals[n].slug| <= SLUG_MAX
         && Unique(fold, before) {
        AppendKeepsUnique(fold, before, rivals[n]);
      }
    }
  }

  /** The rows before the page's own insert: those that were there, and rivals'. */
  lemma RivalsOnlyAdd(fold: Folding, links: seq<Link>, rivals: Rivals)
    ensures var first := Landed(fold, links, rivals.first);
      var second := Landed(fold, first, rivals.second);
      var third := Landed(fold, second, rivals.third);
      && links <= first <= second <= third
      && (Unique(fold, links) ==> Unique(fold, first) && Unique(fold, second) && Unique(fold, third))
      && (forall i :: |links| <= i < |third| ==> rivals.Has(third[i]))
  {
    hide Landed, Unique;
    LandedOnlyAdds(fold, links, rivals.first);
    var first := Landed(fold, links, rivals.first);
    LandedOnlyAdds(fold, first, rivals.second);
    LandedOnlyAdds(fold, Landed(fold, first, rivals.second), rivals.third);
  }

  predicate FitPages(pages: seq<Page>) {
    forall i :: 0 <= i < |pages| ==> |pages[i].slug| <= SLUG_MAX
  }

  /** After its turn a page is owned or its address is somebody's, for the lookup or for the
      index. */
  predicate Settled(fold: Folding, links: seq<Link>, page: Page) {
    Owned(links, page.id) || Found(fold, links, page.domainId, page.slug) || Held(fold, links, page.domainId, page.slug)
  }

  lemma OwnedInExtension(links: seq<Link>, more: seq<Link>, pageId: string)
    requires links <= more
    ensures Owned(links, pageId) ==> Owned(more, pageId)
  {
    if Owned(links, pageId) {
      var i :| 0 <= i < |links| && links[i].managedBy == Some(pageId);
      assert more[i].managedBy == Some(pageId);
    }
  }

  lemma SettledInExtension(fold: Folding, links: seq<Link>, more: seq<Link>, page: Page)
    requires links <= more
    ensures Settled(fold, links, page) ==> Settled(fold, more, page)
    ensures Owned(links, page.id) ==> Owned(more, page.id)
  {
    hide Held, Found, Owned;
    OwnedInExtension(links, more, page.id);
    HeldInExtension(fold, links, more, page.domainId, page.slug);
  }

  /** How many of the pages are owned. */
  function OwnedCount(links: seq<Link>, pages: seq<Page>): nat {
    if pages == [] then 0
    else
      var n := |pages| - 1;
      OwnedCount(links, pages[..n]) + if Owned(links, pages[n].id) then 1 else 0
  }

  lemma {:induction false} OwnedCountGrows(links: seq<Link>, more: seq<Link>, pages: seq<Page>)
    requires links <= more
    ensures OwnedCount(links, pages) <= OwnedCount(more, pages)
  {
    if pages != [] {
      OwnedCountGrows(links, more, pages[..|pages| - 1]);
      OwnedInExtension(links, more, pages[|pages| - 1].id);
    }
  }

  /** The page's own link: its address, its destination, managed by it. */
  predicate IsLinkOf(l: Link, page: Page, destination: Destinations) {
    && l.workspaceId == page.workspaceId && l.domainId == page.domainId && l.slug == page.slug
    && l.destination == destination(page.domain, page.slug)
    && l.managedBy == Some(page.id)
  }

  /** What a page's turn leaves, whatever lands during it. */
  lemma StepAdds(p: Progress, fold: Folding, destination: Destinations, page: Page, rivals: Rivals)
    ensures var q := Step(p, fold, destination, page, rivals);
      && p.tables.links <= q.tables.links && p.tables.outbox <= q.tables.outbox
      && |q.tables.outbox| - |p.tables.outbox| == q.created - p.created == q.tables.nextId - p.tables.nextId
      && 0 <= q.created - p.created <= 1
      && q.created + |q.collisions| + |q.alreadyManaged| == p.created + |p.collisions| + |p.alreadyManaged| + 1
      && q.created + |q.alreadyManaged| <= p.created + |p.alreadyManaged| + 1
      && (forall i :: |p.tables.links| <= i < |q.tables.links| ==>
            rivals.Has(q.tables.links[i]) || (q.created > p.created && IsLinkOf(q.tables.links[i], page, destination)))
  {
    hide Held, Found, Owned, Landed, Unique;
    RivalsOnlyAdd(fold, p.tables.links, rivals);
  }

  lemma StepSettles(p: Progress, fold: Folding, destination: Destinations, page: Page, rivals: Rivals)
    ensures var q := Step(p, fold, destination, page, rivals);
      && Settled(fold, q.tables.links, page)
      && (q.created + |q.alreadyManaged| > p.created + |p.alreadyManaged| ==> Owned(q.tables.links, page.id))
      && (Owned(p.tables.links, page.id) ==> |q.alreadyManaged| == |p.alreadyManaged| + 1)
      && (Settled(fold, p.tables.links, page) ==> q.created == p.created)
  {
    hide Held, Found, Landed, Owned, Unique;
    RivalsOnlyAdd(fold, p.tables.links, rivals);
    var first := Landed(fold, p.tables.links, rivals.first);
    var second := Landed(fold, first, rivals.second);
    var third := p.tables.(links := Landed(fold, second, rivals.third));
    OwnedInExtension(p.tables.links, first, page.id);
    HeldInExtension(fold, p.tables.links, second, page.domainId, page.slug);
    HeldInExtension(fold, p.tables.links, third.links, page.domainId, page.slug);
    OwnAfterCreating(third, page, destination);
  }

  lemma OwnAfterCreating(t: Tables, page: Page, destination: Destinations)
    ensures Owned(Created(t, page, destination).links, page.id)
  {
    assert Created(t, page, destination).links[|t.links|].managedBy == Some(page.id);
  }

  lemma StepKeepsUnique(p: Progress, fold: Folding, destination: Destinations, page: Page, rivals: Rivals)
    requires Unique(fold, p.tables.links) && |page.slug| <= SLUG_MAX
    ensures Unique(fold, Step(p, fold, destination, page, rivals).tables.links)
  {
    hide Held, Found, Owned, Landed, Unique;
    RivalsOnlyAdd(fold, p.tables.links, rivals);
    var q := Step(p, fold, destination, page, rivals);
    if q.created > p.created {
      var second := Landed(fold, Landed(fold, p.tables.links, rivals.first), rivals.second);
      var third := p.tables.(links := Landed(fold, second, rivals.third));
      AppendKeepsUnique(fold, third.links, ManagedLink(third, page, destination));
    }
  }

  /* A run. */

  /** In every run, whatever other writers insert at any point of it: the index holds, no row
      that was there is altered, every page is created, a collision or already managed, each
      created link has its outbox row, and afterwards every page is owned or its address is
      taken. */
  lemma {:induction false} BackfillOnlyAdds(t: Tables, fold: Folding, destination: Destinations, pages: seq<Page>,
                                            rivals: seq<Rivals>)
    requires |rivals| == |pages| && Unique(fold, t.links) && FitPages(pages)
    ensures var p := Run(t, fold, destination, pages, rivals);
      && Unique(fold, p.tables.links) && t.links <= p.tables.links && t.outbox <= p.tables.outbox
      && p.created + |p.collisions| + |p.alreadyManaged| == |pages|
      && |p.tables.outbox| == |t.outbox| + p.created
      && (forall i :: 0 <= i < |pages| ==> Settled(fold, p.tables.links, pages[i]))
      && p.created + |p.alreadyManaged| <= OwnedCount(p.tables.links, pages)
  {
    if pages != [] {
      hide Step, Settled, Owned, Unique;
      var n := |pages| - 1;
      BackfillOnlyAdds(t, fold, destination, pages[..n], rivals[..n]);
      var p := Run(t, fold, destination, pages[..n], rivals[..n]);
      var q := Run(t, fold, destination, pages, rivals);
      StepAdds(p, fold, destination, pages[n], rivals[n]);
      StepSettles(p, fold, destination, pages[n], rivals[n]);
      StepKeepsUnique(p, fold, destination, pages[n], rivals[n]);
      OwnedCountGrows(p.tables.links, q.tables.links, pages[..n]);
      forall i | 0 <= i < n
        ensures Settled(fold, q.tables.links, pages[i])
      {
        assert Settled(fold, p.tables.links, pages[..n][i]);
        SettledInExtension(fold, p.tables.links, q.tables.links, pages[i]);
      }
    }
  }

  /** Another writer's row. */
  predicate OfRival(l: Link, rivals: seq<Rivals>) {
    exists j :: 0 <= j < |rivals| && rivals[j].Has(l)
  }

  /** The managed link of one of the pages. */
  predicate OfPage(l: Link, pages: seq<Page>, destination: Destinations) {
    exists j :: 0 <= j < |pages| && IsLinkOf(l, pages[j], destination)
  }

  lemma OfEarlier(l: Link, pages: seq<Page>, rivals: seq<Rivals>, destination: Destinations, n: nat)
    requires n <= |pages| == |rivals|
    ensures OfRival(l, rivals[..n]) ==> OfRival(l, rivals)
    ensures OfPage(l, pages[..n], destination) ==> OfPage(l, pages, destination)
  {
    if OfRival(l, rivals[..n]) {
      var j :| 0 <= j < n && rivals[..n][j].Has(l);
      assert rivals[j].Has(l);
    }
    if OfPage(l, pages[..n], destination) {
      var j :| 0 <= j < n && IsLinkOf(l, pages[..n][j], destination);
      assert IsLinkOf(l, pages[j], destination);
    }
  }

  /** A run never writes a row that is not a page's own managed link, and when it creates
      none, every new row is another writer's. */
  lemma {:induction false} AddedRowsAreAccountedFor(t: Tables, fold: Folding, destination: Destinations,
                                                    pages: seq<Page>, rivals: seq<Rivals>)
    requires |rivals| == |pages|
    ensures var p := Run(t, fold, destination, pages, rivals);
      && t.links <= p.tables.links
      && (forall i :: |t.links| <= i < |p.tables.links| ==>
            OfRival(p.tables.links[i], rivals)
            || (p.created > 0 && OfPage(p.tables.links[i], pages, destination)))
  {
    if pages != [] {
      hide Step, IsLinkOf, OfRival, OfPage;
      var n := |pages| - 1;
      var p := Run(t, fold, destination, pages[..n], rivals[..n]);
      var q := Run(t, fold, destination, pages, rivals);
      AddedRowsAreAccountedFor(t, fold, destination, pages[..n], rivals[..n]);
      StepAdds(p, fold, destination, pages[n], rivals[n]);
      forall i | |t.links| <= i < |q.tables.links|
        ensures OfRival(q.tables.links[i], rivals) || (q.created > 0 && OfPage(q.tables.links[i], pages, destination))
      {
        var l := q.tables.links[i];
        if i < |p.tables.links| {
          OfEarlier(l, pages, rivals, destination, n);
        } else {
          OfLast(l, pages, rivals, destination);
        }
      }
    }
  }

  lemma OfLast(l: Link, pages: seq<Page>, rivals: seq<Rivals>, destination: Destinations)
    requires |pages| == |rivals| && pages != []
    ensures rivals[|rivals| - 1].Has(l) ==> OfRival(l, rivals)
    ensures IsLinkOf(l, pages[|pages| - 1], destination) ==> OfPage(l, pages, destination)
  {
  }

  lemma {:induction false} NothingToCreate(t: Tables, fold: Folding, destination: Destinations, pages: seq<Page>,
                                           rivals: seq<Rivals>)
    requires |rivals| == |pages|
    requires forall i :: 0 <= i < |pages| ==> Settled(fold, t.links, pages[i])
    ensures var p := Run(t, fold, destination, pages, rivals);
      && p.created == 0 && p.tables.outbox == t.outbox && p.tables.nextId == t.nextId
      && t.links <= p.tables.links
      && |p.alreadyManaged| >= OwnedCount(t.links, pages)
  {
    if pages != [] {
      hide Owned, Settled, Step;
      var n := |pages| - 1;
      forall i | 0 <= i < n
        ensures Settled(fold, t.links, pages[..n][i])
      {
        assert Settled(fold, t.links, pages[i]);
      }
      NothingToCreate(t, fold, destination, pages[..n], rivals[..n]);
      var p := Run(t, fold, destination, pages[..n], rivals[..n]);
      SettledInExtension(fold, t.links, p.tables.links, pages[n]);
      StepAdds(p, fold, destination, pages[n], rivals[n]);
      StepSettles(p, fold, destination, pages[n], rivals[n]);
    }
  }

  /** Running it again creates nothing, whatever other writers insert meanwhile: every row
      that is new is theirs, and it reports as managed at least the pages the first run
      created or found managed. */
  lemma SecondRunCreatesNothing(t: Tables, fold: Folding, destination: Destinations, pages: seq<Page>,
                                rivals: seq<Rivals>, later: seq<Rivals>)
    requires |rivals| == |later| == |pages| && Unique(fold, t.links) && FitPages(pages)
    ensures var first := Run(t, fold, destination, pages, rivals);
      var again := Run(first.tables, fold, destination, pages, later);
      && again.created == 0
      && again.tables.outbox == first.tables.outbox && again.tables.nextId == first.tables.nextId
      && first.tables.links <= again.tables.links
      && (forall i :: |first.tables.links| <= i < |again.tables.links| ==> OfRival(again.tables.links[i], later))
      && |again.alreadyManaged| >= first.created + |first.alreadyManaged|
  {
    hide Run, Settled, OfRival, OfPage;
    BackfillOnlyAdds(t, fold, destination, pages, rivals);
    var first := Run(t, fold, destination, pages, rivals);
    NothingToCreate(first.tables, fold, destination, pages, later);
    AddedRowsAreAccountedFor(first.tables, fold, destination, pages, later);
  }

  /* With no other writer. */

  const NOBODY := Rivals([], [], [])

  /** No page has another's id or address, as the pages' own keys guarantee. */
  predicate DistinctPages(fold: Folding, pages: seq<Page>) {
    forall i, j :: 0 <= i < j < |pages| ==>
      && pages[i].id != pages[j].id
      && !(pages[i].domainId == pages[j].domainId && fold.db(pages[i].slug) == fold.db(pages[j].slug))
  }

  predicate AlikePages(fold: Folding, pages: seq<Page>) {
    forall i :: 0 <= i < |pages| ==> Alike(fold, pages[i].slug)
  }

  predicate Occupied(fold: Folding, links: seq<Link>, page: Page) {
    !Owned(links, page.id) && Held(fold, links, page.domainId, page.slug)
  }

  /** The pages with neither a managed link nor an occupied address. */
  function Missing(fold: Folding, links: seq<Link>, pages: seq<Page>): seq<Page> {
    if pages == [] then []
    else
      var n := |pages| - 1;
      Missing(fold, links, pages[..n])
      + if Owned(links, pages[n].id) || Occupied(fold, links, pages[n]) then [] else [pages[n]]
  }

  function OwnedAddresses(links: seq<Link>, pages: seq<Page>): seq<string> {
    if pages == [] then []
    else
      var n := |pages| - 1;
      OwnedAddresses(links, pages[..n])
      + if Owned(links, pages[n].id) then [pages[n].domain + "/" + pages[n].slug] else []
  }

  function OccupiedAddresses(fold: Folding, links: seq<Link>, pages: seq<Page>): seq<string> {
    if pages == [] then []
    else
      var n := |pages| - 1;
      OccupiedAddresses(fold, links, pages[..n])
      + if Occupied(fold, links, pages[n]) then [pages[n].domain + "/" + pages[n].slug] else []
  }

  /** Exactly the given pages' links, in order, with fresh ids and their outbox rows. */
  predicate Adds(t: Tables, destination: Destinations, pages: seq<Page>, after: Tables) {
    && after.nextId == t.nextId + |pages|
    && t.links <= after.links && |after.links| == |t.links| + |pages|
    && t.outbox <= after.outbox && |after.outbox| == |t.outbox| + |pages|
    && forall k :: 0 <= k < |pages| ==>
         && IsLinkOf(after.links[|t.links| + k], pages[k], destination)
         && after.links[|t.links| + k].id == after.outbox[|t.outbox| + k] == t.nextId + k
  }

  /** What a run over the pages has done when nobody else wrote. */
  predicate Quiet(t: Tables, fold: Folding, destination: Destinations, pages: seq<Page>, p: Progress) {
    && Adds(t, destination, Missing(fold, t.links, pages), p.tables)
    && p.created == |Missing(fold, t.links, pages)|
    && p.collisions == OccupiedAddresses(fold, t.links, pages)
    && p.alreadyManaged == OwnedAddresses(t.links, pages)
  }

  /** Links of other pages neither manage a page nor occupy its address. */
  lemma OthersDoNotSettle(fold: Folding, links: seq<Link>, more: seq<Link>, destination: Destinations,
                          pages: seq<Page>, page: Page)
    requires links <= more && DistinctPages(fold, pages + [page])
    requires forall i :: |links| <= i < |more| ==> OfPage(more[i], pages, destination)
    ensures Owned(more, page.id) <==> Owned(links, page.id)
    ensures Held(fold, more, page.domainId, page.slug) <==> Held(fold, links, page.domainId, page.slug)
  {
    var all := pages + [page];
    forall i | |links| <= i < |more|
      ensures more[i].managedBy != Some(page.id) && !Claims(fold, more[i], page.domainId, page.slug)
    {
      var j :| 0 <= j < |pages| && IsLinkOf(more[i], pages[j], destination);
      assert all[j] == pages[j] && all[|pages|] == page;
    }
    assert forall i :: 0 <= i < |links| ==> more[i] == links[i];
  }

  lemma QuietRowsArePages(t: Tables, fold: Folding, destination: Destinations, pages: seq<Page>, rivals: seq<Rivals>)
    requires |rivals| == |pages|
    requires forall j :: 0 <= j < |rivals| ==> rivals[j] == NOBODY
    ensures var after := Run(t, fold, destination, pages, rivals).tables.links;
      && t.links <= after
      && forall i :: |t.links| <= i < |after| ==> OfPage(after[i], pages, destination)
  {
    hide Run, OfPage;
    AddedRowsAreAccountedFor(t, fold, destination, pages, rivals);
    assert forall l :: !OfRival(l, rivals);
  }

  /** Left alone, a run creates the managed link of exactly the pages that had neither a
      link nor an occupied address to begin with, and reports all the others by what
      stood in their way. */
  lemma {:induction false} QuietRunCreatesMissing(t: Tables, fold: Folding, destination: Destinations,
                                                  pages: seq<Page>, rivals: seq<Rivals>)
    requires |rivals| == |pages| && DistinctPages(fold, pages) && AlikePages(fold, pages)
    requires forall j :: 0 <= j < |rivals| ==> rivals[j] == NOBODY
    ensures Quiet(t, fold, destination, pages, Run(t, fold, destination, pages, rivals))
  {
    if pages == [] {
      assert Adds(t, destination, [], t);
    } else {
      hide Owned, Held, Quiet, OfPage, Step, Alike;
      var n := |pages| - 1;
      var p := Run(t, fold, destination, pages[..n], rivals[..n]);
      QuietRunCreatesMissing(t, fold, destination, pages[..n], rivals[..n]);
      QuietRowsArePages(t, fold, destination, pages[..n], rivals[..n]);
      assert pages == pages[..n] + [pages[n]];
      OthersDoNotSettle(fold, t.links, p.tables.links, destination, pages[..n], pages[n]);
      QuietNext(t, fold, destination, pages, p);
    }
  }

  lemma QuietNext(t: Tables, fold: Folding, destination: Destinations, pages: seq<Page>, p: Progress)
    requires pages != [] && Quiet(t, fold, destination, pages[..|pages| - 1], p)
    requires var page := pages[|pages| - 1];
      && Alike(fold, page.slug)
      && (Owned(p.tables.links, page.id) <==> Owned(t.links, page.id))
      && (Held(fold, p.tables.links, page.domainId, page.slug) <==> Held(fold, t.links, page.domainId, page.slug))
    ensures Quiet(t, fold, destination, pages, Step(p, fold, destination, pages[|pages| - 1], NOBODY))
  {
    hide Owned, Held, Adds, Step, Alike, Created;
    var n := |pages| - 1;
    QuietStep(p, fold, destination, pages[n]);
    AddsOneMore(t, destination, Missing(fold, t.links, pages[..n]), p.tables, pages[n]);
    assert forall s: seq<string> :: s + [] == s;
    assert forall s: seq<Page> :: s + [] == s;
  }

  lemma QuietStep(p: Progress, fold: Folding, destination: Destinations, page: Page)
    requires Alike(fold, page.slug)
    ensures Step(p, fold, destination, page, NOBODY) ==
      if Owned(p.tables.links, page.id) then p.(alreadyManaged := p.alreadyManaged + [AddressOf(page)])
      else if Held(fold, p.tables.links, page.domainId, page.slug) then p.(collisions := p.collisions + [AddressOf(page)])
      else p.(tables := Created(p.tables, page, destination), created := p.created + 1)
  {
    hide Owned, Held, Found, Alike;
    assert Landed(fold, p.tables.links, []) == p.tables.links;
    assert p.tables.(links := p.tables.links) == p.tables;
    FoundIsHeld(fold, p.tables.links, page.domainId, page.slug);
  }

  lemma AddsOneMore(t: Tables, destination: Destinations, created: seq<Page>, p: Tables, page: Page)
    requires Adds(t, destination, created, p)
    ensures Adds(t, destination, created + [page], Created(p, page, destination))
  {
  }
}
