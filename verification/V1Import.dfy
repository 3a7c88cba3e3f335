/** The v1 import: one pass over the exported documents that reserves their slugs and
    never touches a link that is already there. */
module V1Import {
  import opened Options
  import opened Text
  import opened LinkTable

  /** The largest value of an integer column. */
  const INT_MAX := 2_147_483_647

  /** The one character that the database's text cannot hold. */
  const NUL := '\0'

  /** A document of the export; a missing text field is empty. */
  datatype Doc = Doc(customBackHalf: string, shortUrl: string, originalUrl: string, category: string, visitCount: int)

  function SlugOf(doc: Doc): string {
    Trim(if doc.customBackHalf != "" then doc.customBackHalf else doc.shortUrl)
  }

  function DestinationOf(doc: Doc): string {
    Trim(doc.originalUrl)
  }

  /** /^https?:\/\//i */
  predicate HasScheme(s: string) {
    "http://" <= Lower(s) || "https://" <= Lower(s)
  }

  predicate Valid(doc: Doc) {
    SlugOf(doc) != "" && DestinationOf(doc) != "" && HasScheme(DestinationOf(doc))
  }

  /** What the script writes: links, the projection outbox and the click counters. */
  datatype Tables = Tables(links: seq<Link>, outbox: seq<nat>, clicks: map<nat, int>, nextId: nat)

  /** Where the links go, how slugs are folded there, and which tags its index takes. */
  datatype Target = Target(workspaceId: string, domainId: string, fold: Folding, indexable: string -> bool)

  datatype Progress = Progress(tables: Tables, imported: nat, taken: nat, invalid: nat, aborted: bool)

  function LinkFor(t: Tables, target: Target, doc: Doc): Link {
    Link(t.nextId, target.workspaceId, target.domainId, SlugOf(doc), DestinationOf(doc), None)
  }

  function WithLink(t: Tables, target: Target, doc: Doc): Tables {
    t.(links := t.links + [LinkFor(t, target, doc)], nextId := t.nextId + 1)
  }

  function WithCounter(t: Tables, id: nat, doc: Doc): Tables {
    if doc.visitCount > 0 then t.(clicks := t.clicks[id := doc.visitCount]) else t
  }

  /** The link row does not fit: its slug is wider than the column, its text holds the
      character that no text column takes, or its tag is too long for the tags index. */
  predicate RowRejected(target: Target, doc: Doc) {
    || |SlugOf(doc)| > SLUG_MAX || NUL in DestinationOf(doc) || NUL in doc.category
    || (doc.category != "" && !target.indexable(doc.category))
  }

  /** One document. The lookup already fails on a slug that the database cannot read. The
      statements are not in a transaction: a rejected row, or one whose slug the lookup
      missed and the index does not, stops the script with nothing written; a count wider
      than its column stops it after the link row is in. */
  function Step(p: Progress, target: Target, dryRun: bool, doc: Doc): Progress {
    if p.aborted then p
    else if !Valid(doc) then p.(invalid := p.invalid + 1)
    else if NUL in SlugOf(doc) then p.(aborted := true)
    else if Found(target.fold, p.tables.links, target.domainId, SlugOf(doc)) then p.(taken := p.taken + 1)
    else if dryRun then p.(imported := p.imported + 1)
    else if RowRejected(target, doc) || Held(target.fold, p.tables.links, target.domainId, SlugOf(doc)) then p.(aborted := true)
    else
      var id := p.tables.nextId;
      var t := WithLink(p.tables, target, doc);
      if doc.visitCount > INT_MAX then p.(tables := t, aborted := true)
      else
        var u := WithCounter(t, id, doc);
        p.(tables := u.(outbox := u.outbox + [id]), imported := p.imported + 1)
  }

  function Run(t: Tables, target: Target, dryRun: bool, docs: seq<Doc>): Progress {
    if docs == [] then Progress(t, 0, 0, 0, false)
    else Step(Run(t, target, dryRun, docs[..|docs| - 1]), target, dryRun, docs[|docs| - 1])
  }

  class Database {
    var links: seq<Link>
    var outbox: seq<nat>
    var clicks: map<nat, int>
    var nextId: nat

    constructor (t: Tables)
      ensures Snapshot() == t
    {
      links, outbox, clicks, nextId := t.links, t.outbox, t.clicks, t.nextId;
    }

    function Snapshot(): Tables
      reads this
    {
      Tables(links, outbox, clicks, nextId)
    }

    /** The document loop, to the end or to the statement that throws. */
    method Import(target: Target, docs: seq<Doc>, dryRun: bool)
      returns (imported: nat, skippedTaken: nat, skippedInvalid: nat, aborted: bool)
      modifies this
      ensures Progress(Snapshot(), imported, skippedTaken, skippedInvalid, aborted)
           == Run(old(Snapshot()), target, dryRun, docs)
    {
      hide SlugOf, DestinationOf, HasScheme, Held, Found;
      imported, skippedTaken, skippedInvalid, aborted := 0, 0, 0, false;
      for i := 0 to |docs|
        invariant !aborted
        invariant Progress(Snapshot(), imported, skippedTaken, skippedInvalid, aborted)
               == Run(old(Snapshot()), target, dryRun, docs[..i])
      {
        assert docs[..i + 1][..i] == docs[..i];
        var doc := docs[i];
        var slug, destination := SlugOf(doc), DestinationOf(doc);
        if slug == "" || destination == "" || !HasScheme(destination) {
          skippedInvalid := skippedInvalid + 1;
          continue;
        }
        if NUL in slug {
          aborted := true;
          AbortedStays(old(Snapshot()), target, dryRun, docs, i + 1);
          return;
        }
        var taken := Lookup(target.fold, links, target.domainId, slug);
        if taken {
          skippedTaken := skippedTaken + 1;
          continue;
        }
        if dryRun {
          imported := imported + 1;
          continue;
        }
        var violates := Violates(target.fold, links, target.domainId, slug);
        if |slug| > SLUG_MAX || NUL in destination || NUL in doc.category
           || (doc.category != "" && !target.indexable(doc.category)) || violates {
          aborted := true;
          AbortedStays(old(Snapshot()), target, dryRun, docs, i + 1);
          return;
        }
        var id := nextId;
        links := links + [Link(id, target.workspaceId, target.domainId, slug, destination, None)];
        nextId := nextId + 1;
        if doc.visitCount > 0 {
          if doc.visitCount > INT_MAX {
            aborted := true;
            AbortedStays(old(Snapshot()), target, dryRun, docs, i + 1);
            return;
          }
          clicks := clicks[id := doc.visitCount];
        }
        outbox := outbox + [id];
        imported := imported + 1;
      }
      assert docs[..|docs|] == docs;
    }
  }

  lemma {:induction false} AbortedStays(t: Tables, target: Target, dryRun: bool, docs: seq<Doc>, n: nat)
    requires n <= |docs| && Run(t, target, dryRun, docs[..n]).aborted
    ensures Run(t, target, dryRun, docs) == Run(t, target, dryRun, docs[..n])
    decreases |docs|
  {
    if n < |docs| {
      var m := |docs| - 1;
      assert docs[..m][..n] == docs[..n];
      AbortedStays(t, target, dryRun, docs[..m], n);
    } else {
      assert docs[..n] == docs;
    }
  }

  /* What a run keeps. */

  predicate GoodTables(target: Target, t: Tables) {
    && Unique(target.fold, t.links)
    && (forall i :: 0 <= i < |t.links| ==> t.links[i].id < t.nextId)
    && (forall id <- t.clicks :: id < t.nextId)
    && (forall i :: 0 <= i < |t.outbox| ==> t.outbox[i] < t.nextId)
  }

  /** Rows are only added, and no counter that was there changes. */
  predicate Extends(before: Tables, after: Tables) {
    && before.links <= after.links
    && before.outbox <= after.outbox
    && before.nextId <= after.nextId
    && (forall id <- before.clicks :: id in after.clicks && after.clicks[id] == before.clicks[id])
    && (forall id <- after.clicks :: id in before.clicks || id >= before.nextId)
  }

  /** In every run, finished or not, the tables stay good, nothing that was there is
      altered, and the counts are exact: each processed document is imported, taken or
      invalid, each import adds one link and one outbox row, and only a run that
      stopped on a count can leave a link without one. */
  lemma {:induction false} ImportOnlyAdds(t: Tables, target: Target, dryRun: bool, docs: seq<Doc>)
    requires GoodTables(target, t)
    ensures var p := Run(t, target, dryRun, docs);
      && GoodTables(target, p.tables) && Extends(t, p.tables)
      && (dryRun ==> p.tables == t)
      && (!p.aborted ==> p.imported + p.taken + p.invalid == |docs|)
      && (!dryRun ==> |p.tables.outbox| == |t.outbox| + p.imported)
      && (!dryRun ==> |t.links| + p.imported <= |p.tables.links| <= |t.links| + p.imported + if p.aborted then 1 else 0)
  {
    hide Extends, GoodTables, Held, Valid;
    if docs == [] {
      ExtendsItself(t);
    } else {
      var n := |docs| - 1;
      ImportOnlyAdds(t, target, dryRun, docs[..n]);
      StepOnlyAdds(Run(t, target, dryRun, docs[..n]), target, dryRun, docs[n]);
      ExtendsChains(t, Run(t, target, dryRun, docs[..n]).tables, Run(t, target, dryRun, docs).tables);
    }
  }

  lemma ExtendsItself(t: Tables)
    ensures Extends(t, t)
  {
  }

  lemma ExtendsChains(a: Tables, b: Tables, c: Tables)
    requires Extends(a, b) && Extends(b, c)
    ensures Extends(a, c)
  {
  }

  lemma StepOnlyAdds(p: Progress, target: Target, dryRun: bool, doc: Doc)
    requires GoodTables(target, p.tables)
    ensures var q := Step(p, target, dryRun, doc);
      GoodTables(target, q.tables) && Extends(p.tables, q.tables)
  {
    hide Held, Claims, Valid;
    var q := Step(p, target, dryRun, doc);
    if q.tables != p.tables {
      var l := LinkFor(p.tables, target, doc);
      AppendKeepsUnique(target.fold, p.tables.links, l);
    }
  }

  /* Which documents the lookup lets through. */

  /** One of the documents is stored under the slug that the lookup asks for. */
  predicate Hides(target: Target, wins: seq<Doc>, doc: Doc) {
    exists k :: 0 <= k < |wins| && target.fold.db(SlugOf(wins[k])) == target.fold.js(SlugOf(doc))
  }

  /** The valid documents, in file order, that the lookup finds neither in the table nor
      among the ones before them. */
  function Wins(t: Tables, target: Target, docs: seq<Doc>): seq<Doc> {
    if docs == [] then []
    else
      var n := |docs| - 1;
      var wins := Wins(t, target, docs[..n]);
      if IsWin(t, target, wins, docs[n]) then wins + [docs[n]] else wins
  }

  predicate IsWin(t: Tables, target: Target, wins: seq<Doc>, doc: Doc) {
    Valid(doc) && !Found(target.fold, t.links, target.domainId, SlugOf(doc)) && !Hides(target, wins, doc)
  }

  /** The valid documents that nothing but an earlier win hides from the lookup. */
  function Hidden(t: Tables, target: Target, docs: seq<Doc>): seq<Doc> {
    if docs == [] then []
    else
      var n := |docs| - 1;
      var hidden := Hidden(t, target, docs[..n]);
      if Valid(docs[n]) && !Found(target.fold, t.links, target.domainId, SlugOf(docs[n]))
         && Hides(target, Wins(t, target, docs[..n]), docs[n])
      then hidden + [docs[n]] else hidden
  }

  /** A document that one of the columns or the tags index cannot hold. */
  predicate Unstorable(target: Target, doc: Doc) {
    || |SlugOf(doc)| > 64 || '\0' in DestinationOf(doc) || '\0' in doc.category
    || (doc.category != "" && !target.indexable(doc.category))
    || doc.visitCount > 2_147_483_647
  }

  lemma UnstorableIsRejected(target: Target, doc: Doc)
    ensures Unstorable(target, doc) <==> RowRejected(target, doc) || doc.visitCount > INT_MAX
  {
  }

  predicate SameSlug(target: Target, a: Doc, b: Doc) {
    target.fold.db(SlugOf(a)) == target.fold.db(SlugOf(b))
  }

  /** The unique index has the slug from one of the documents. */
  predicate Clashes(target: Target, wins: seq<Doc>, doc: Doc) {
    exists k :: 0 <= k < |wins| && SameSlug(target, wins[k], doc)
  }

  /** The k-th win can be stored: the columns take it, and the index has its slug neither from
      the table nor from an earlier win. */
  predicate Fits(t: Tables, target: Target, wins: seq<Doc>, k: nat)
    requires k < |wins|
  {
    && !Unstorable(target, wins[k])
    && !Held(target.fold, t.links, target.domainId, SlugOf(wins[k]))
    && !Clashes(target, wins[..k], wins[k])
  }

  predicate AllFit(t: Tables, target: Target, wins: seq<Doc>) {
    forall k :: 0 <= k < |wins| ==> Fits(t, target, wins, k)
  }

  /** Every slug that is looked up can be. */
  predicate Readable(docs: seq<Doc>) {
    forall i :: 0 <= i < |docs| && Valid(docs[i]) ==> '\0' !in SlugOf(docs[i])
  }

  /** The last document's slug can be looked up. */
  predicate LastReadable(docs: seq<Doc>)
    requires docs != []
  {
    var last := docs[|docs| - 1];
    Valid(last) ==> '\0' !in SlugOf(last)
  }

  lemma ReadablePrefix(docs: seq<Doc>)
    requires docs != []
    ensures Readable(docs) <==> Readable(docs[..|docs| - 1]) && LastReadable(docs)
  {
    hide Valid, SlugOf;
    var n := |docs| - 1;
    assert forall i :: 0 <= i < n ==> docs[..n][i] == docs[i];
  }

  lemma AllFitSnoc(t: Tables, target: Target, wins: seq<Doc>, doc: Doc)
    ensures AllFit(t, target, wins + [doc]) <==> AllFit(t, target, wins) && Fits(t, target, wins + [doc], |wins|)
  {
    hide Unstorable, Held, Clashes;
    var more := wins + [doc];
    forall k | 0 <= k < |wins|
      ensures Fits(t, target, more, k) <==> Fits(t, target, wins, k)
    {
      assert more[..k] == wins[..k];
    }
  }

  function WinLink(t: Tables, target: Target, wins: seq<Doc>, k: nat): Link
    requires k < |wins|
  {
    Link(t.nextId + k, target.workspaceId, target.domainId, SlugOf(wins[k]), DestinationOf(wins[k]), None)
  }

  /** The links are those of the table and then the wins'. */
  predicate LinksAre(t: Tables, target: Target, wins: seq<Doc>, after: Tables) {
    && after.nextId == t.nextId + |wins|
    && |after.links| == |t.links| + |wins|
    && t.links <= after.links
    && forall k :: 0 <= k < |wins| ==> after.links[|t.links| + k] == WinLink(t, target, wins, k)
  }

  lemma FoundAmongWins(t: Tables, target: Target, wins: seq<Doc>, after: Tables, doc: Doc)
    requires LinksAre(t, target, wins, after)
    ensures Found(target.fold, after.links, target.domainId, SlugOf(doc)) <==>
      Found(target.fold, t.links, target.domainId, SlugOf(doc)) || Hides(target, wins, doc)
  {
    hide SlugOf, DestinationOf;
    HeldInExtension(target.fold, t.links, after.links, target.domainId, SlugOf(doc));
    if Found(target.fold, after.links, target.domainId, SlugOf(doc)) {
      var i :| 0 <= i < |after.links| && Matches(target.fold, after.links[i], target.domainId, SlugOf(doc));
      if i < |t.links| {
        assert Matches(target.fold, t.links[i], target.domainId, SlugOf(doc));
      } else {
        assert after.links[i] == WinLink(t, target, wins, i - |t.links|);
      }
    }
    if Hides(target, wins, doc) {
      var k :| 0 <= k < |wins| && target.fold.db(SlugOf(wins[k])) == target.fold.js(SlugOf(doc));
      assert after.links[|t.links| + k] == WinLink(t, target, wins, k);
      assert Matches(target.fold, after.links[|t.links| + k], target.domainId, SlugOf(doc));
    }
  }

  lemma HeldAmongWins(t: Tables, target: Target, wins: seq<Doc>, after: Tables, doc: Doc)
    requires LinksAre(t, target, wins, after)
    ensures Held(target.fold, after.links, target.domainId, SlugOf(doc)) <==>
      Held(target.fold, t.links, target.domainId, SlugOf(doc)) || Clashes(target, wins, doc)
  {
    hide SlugOf, DestinationOf;
    HeldInExtension(target.fold, t.links, after.links, target.domainId, SlugOf(doc));
    if Held(target.fold, after.links, target.domainId, SlugOf(doc)) {
      var i :| 0 <= i < |after.links| && Claims(target.fold, after.links[i], target.domainId, SlugOf(doc));
      if i < |t.links| {
        assert Claims(target.fold, t.links[i], target.domainId, SlugOf(doc));
      } else {
        assert after.links[i] == WinLink(t, target, wins, i - |t.links|);
      }
    }
    if Clashes(target, wins, doc) {
      var k :| 0 <= k < |wins| && SameSlug(target, wins[k], doc);
      assert after.links[|t.links| + k] == WinLink(t, target, wins, k);
      assert Claims(target.fold, after.links[|t.links| + k], target.domainId, SlugOf(doc));
    }
  }

  /* The main results. */

  /** What an import that has got so far leaves. */
  predicate OnTrack(t: Tables, target: Target, docs: seq<Doc>, p: Progress) {
    && LinksAre(t, target, Wins(t, target, docs), p.tables)
    && p.imported == |Wins(t, target, docs)|
  }

  lemma AppendedLinkIs(t: Tables, target: Target, wins: seq<Doc>, after: Tables, doc: Doc)
    requires LinksAre(t, target, wins, after)
    ensures LinksAre(t, target, wins + [doc], WithLink(after, target, doc))
  {
    hide SlugOf, DestinationOf;
    var more, links := wins + [doc], WithLink(after, target, doc).links;
    forall k | 0 <= k < |more|
      ensures links[|t.links| + k] == WinLink(t, target, more, k)
    {
      assert k < |wins| ==> after.links[|t.links| + k] == WinLink(t, target, wins, k);
    }
  }

  /** One document more: the import stops exactly on a slug that cannot be looked up and on a
      win that does not fit. */
  lemma NextDocument(t: Tables, target: Target, docs: seq<Doc>)
    requires docs != [] && !Run(t, target, false, docs[..|docs| - 1]).aborted
    requires OnTrack(t, target, docs[..|docs| - 1], Run(t, target, false, docs[..|docs| - 1]))
    ensures var n := |docs| - 1;
      var wins, before, q := Wins(t, target, docs), Wins(t, target, docs[..n]), Run(t, target, false, docs);
      && (q.aborted <==> !LastReadable(docs) || (wins != before && !Fits(t, target, wins, |before|)))
      && (!q.aborted ==> OnTrack(t, target, docs, q))
  {
    hide Valid, SlugOf, DestinationOf, Found, Held, Hides, Clashes, RowRejected, Unstorable, LinksAre;
    var n := |docs| - 1;
    var before, p, doc := Wins(t, target, docs[..n]), Run(t, target, false, docs[..n]), docs[n];
    UnstorableIsRejected(target, doc);
    FoundAmongWins(t, target, before, p.tables, doc);
    HeldAmongWins(t, target, before, p.tables, doc);
    if IsWin(t, target, before, doc) {
      assert (before + [doc])[..|before|] == before;
      AppendedLinkIs(t, target, before, p.tables, doc);
      CounterLeavesLinks(t, target, before + [doc], WithLink(p.tables, target, doc), doc);
    }
  }

  lemma CounterLeavesLinks(t: Tables, target: Target, wins: seq<Doc>, after: Tables, doc: Doc)
    requires LinksAre(t, target, wins, after)
    ensures forall id: nat, outbox: seq<nat> ::
      LinksAre(t, target, wins, WithCounter(after, id, doc).(outbox := outbox))
  {
    hide SlugOf, DestinationOf;
  }

  /** An import reaches its end if and only if every slug it looks up is readable and every
      win fits; and then it has imported exactly the wins. */
  lemma {:induction false} CompletesIffWinsFit(t: Tables, target: Target, docs: seq<Doc>)
    ensures !Run(t, target, false, docs).aborted <==> Readable(docs) && AllFit(t, target, Wins(t, target, docs))
    ensures !Run(t, target, false, docs).aborted ==> OnTrack(t, target, docs, Run(t, target, false, docs))
  {
    if docs == [] {
      assert LinksAre(t, target, [], t);
    } else {
      hide Fits, OnTrack, LastReadable, Readable, Step, AllFit;
      var n := |docs| - 1;
      CompletesIffWinsFit(t, target, docs[..n]);
      ReadablePrefix(docs);
      AllFitSnoc(t, target, Wins(t, target, docs[..n]), docs[n]);
      if Run(t, target, false, docs[..n]).aborted {
        AbortedStays(t, target, false, docs, n);
      } else {
        NextDocument(t, target, docs);
      }
    }
  }

  /** Everything an import of these documents adds: for the k-th, the link with its own
      slug and destination, its outbox row, and a counter exactly when it had visits. */
  predicate Adds(t: Tables, target: Target, wins: seq<Doc>, after: Tables) {
    && after.nextId == t.nextId + |wins|
    && |after.links| == |t.links| + |wins| && |after.outbox| == |t.outbox| + |wins|
    && (forall k :: 0 <= k < |wins| ==>
          && after.links[|t.links| + k] == WinLink(t, target, wins, k)
          && after.outbox[|t.outbox| + k] == t.nextId + k
          && (wins[k].visitCount > 0 <==> t.nextId + k in after.clicks)
          && (wins[k].visitCount > 0 ==> after.clicks[t.nextId + k] == wins[k].visitCount))
  }

  lemma AddsOneMore(t: Tables, target: Target, wins: seq<Doc>, p: Progress, doc: Doc)
    requires GoodTables(target, p.tables) && Adds(t, target, wins, p.tables)
    requires !p.aborted && !Step(p, target, false, doc).aborted
    requires Valid(doc) && !Held(target.fold, p.tables.links, target.domainId, SlugOf(doc))
    requires !Found(target.fold, p.tables.links, target.domainId, SlugOf(doc))
    ensures Adds(t, target, wins + [doc], Step(p, target, false, doc).tables)
  {
    hide Held, Found, Valid, SlugOf, DestinationOf, Unique;
  }

  /** One document more: a win adds its own rows and nothing else adds any. */
  lemma WritesNext(t: Tables, target: Target, docs: seq<Doc>)
    requires docs != [] && GoodTables(target, t) && !Run(t, target, false, docs).aborted
    requires var n := |docs| - 1;
      !Run(t, target, false, docs[..n]).aborted
      && Adds(t, target, Wins(t, target, docs[..n]), Run(t, target, false, docs[..n]).tables)
    ensures Adds(t, target, Wins(t, target, docs), Run(t, target, false, docs).tables)
  {
    hide Held, Found, Hides, Valid, Adds, Extends, GoodTables, SlugOf, DestinationOf, RowRejected, LinksAre;
    var n := |docs| - 1;
    var p, wins := Run(t, target, false, docs[..n]), Wins(t, target, docs[..n]);
    ImportOnlyAdds(t, target, false, docs[..n]);
    CompletesIffWinsFit(t, target, docs[..n]);
    FoundAmongWins(t, target, wins, p.tables, docs[n]);
    if IsWin(t, target, wins, docs[n]) {
      AddsOneMore(t, target, wins, p, docs[n]);
    }
  }

  /** A finished import has written exactly its wins, each with its own slug, destination
      and count, in file order. */
  lemma {:induction false} ImportWritesWins(t: Tables, target: Target, docs: seq<Doc>)
    requires GoodTables(target, t) && !Run(t, target, false, docs).aborted
    ensures Adds(t, target, Wins(t, target, docs), Run(t, target, false, docs).tables)
    ensures Extends(t, Run(t, target, false, docs).tables)
  {
    ImportOnlyAdds(t, target, false, docs);
    if docs == [] {
      assert Adds(t, target, [], t);
    } else {
      hide Step, Adds, Extends, GoodTables, Wins;
      AbortedStops(t, target, docs);
      ImportWritesWins(t, target, docs[..|docs| - 1]);
      WritesNext(t, target, docs);
    }
  }

  /* The documents' own fields. */

  /** The field that the slug is taken from: v1's custom back-half, where there is one. */
  function SlugField(doc: Doc): string {
    if doc.customBackHalf == "" then doc.shortUrl else doc.customBackHalf
  }

  predicate StartsLike(s: string, prefix: string) {
    |s| >= |prefix| && SameButCase(s[..|prefix|], prefix)
  }

  lemma LowerStarts(s: string, prefix: string)
    requires Lower(prefix) == prefix
    ensures prefix <= Lower(s) <==> StartsLike(s, prefix)
  {
    hide LowerChar, SameLetter;
    if |s| >= |prefix| {
      LowerIffSameButCase(s[..|prefix|], prefix);
      assert Lower(s[..|prefix|]) == Lower(s)[..|prefix|];
    }
  }

  /** A document is imported under its custom back-half, or for want of one its short URL,
      and valid when that is not blank and its address begins with http:// or https:// in
      any letter case, less the white space at the ends. */
  lemma DocumentFields(doc: Doc, slug: string, destination: string)
    requires TrimsTo(SlugField(doc), slug) && TrimsTo(doc.originalUrl, destination)
    ensures SlugOf(doc) == slug && DestinationOf(doc) == destination
    ensures Valid(doc) <==> slug != "" && (StartsLike(destination, "http://") || StartsLike(destination, "https://"))
  {
    hide Trim, TrimsTo, StartsLike;
    TrimIsTheRest(SlugField(doc), slug);
    TrimIsTheRest(doc.originalUrl, destination);
    LowerWithoutCapitals("http://");
    LowerWithoutCapitals("https://");
    LowerStarts(destination, "http://");
    LowerStarts(destination, "https://");
    assert destination == "" ==> Lower(destination) == "";
  }

  /** So the link that a finished import has added for its k-th win holds the document's own
      fields. */
  lemma ImportedLinkHoldsFields(t: Tables, target: Target, docs: seq<Doc>, k: nat)
    requires GoodTables(target, t) && !Run(t, target, false, docs).aborted && k < |Wins(t, target, docs)|
    ensures var doc, links := Wins(t, target, docs)[k], Run(t, target, false, docs).tables.links;
      && |links| == |t.links| + |Wins(t, target, docs)|
      && TrimsTo(SlugField(doc), links[|t.links| + k].slug)
      && TrimsTo(doc.originalUrl, links[|t.links| + k].destination)
      && links[|t.links| + k].workspaceId == target.workspaceId && links[|t.links| + k].domainId == target.domainId
  {
    hide Run, Wins, Trim, TrimsTo, Extends;
    var doc := Wins(t, target, docs)[k];
    ImportWritesWins(t, target, docs);
    TrimTrims(SlugField(doc));
    TrimTrims(doc.originalUrl);
    DocumentFields(doc, Trim(SlugField(doc)), Trim(doc.originalUrl));
  }

  lemma AbortedStops(t: Tables, target: Target, docs: seq<Doc>)
    requires docs != [] && !Run(t, target, false, docs).aborted
    ensures !Run(t, target, false, docs[..|docs| - 1]).aborted
  {
    hide Held, Found, Valid;
  }

  /* Dry runs. */

  /** A dry run only sees the slugs: it stops exactly on one that cannot be looked up. */
  lemma {:induction false} DryRunCompletesIffReadable(t: Tables, target: Target, docs: seq<Doc>)
    ensures !Run(t, target, true, docs).aborted <==> Readable(docs)
  {
    if docs != [] {
      hide Held, Found, Valid, SlugOf;
      DryRunCompletesIffReadable(t, target, docs[..|docs| - 1]);
      ReadablePrefix(docs);
    }
  }

  /** A dry run counts the wins and what they hide. */
  lemma {:induction false} DryRunCounts(t: Tables, target: Target, docs: seq<Doc>)
    requires Readable(docs)
    ensures var p := Run(t, target, true, docs);
      && p.tables == t && !p.aborted
      && p.imported == |Wins(t, target, docs)| + |Hidden(t, target, docs)|
  {
    if docs != [] {
      hide Held, Found, Hides, Valid, SlugOf;
      ReadablePrefix(docs);
      DryRunCounts(t, target, docs[..|docs| - 1]);
    }
  }

  /** Where the import finishes so does its dry run, and it over-reports by exactly the
      documents that only an earlier win hides. */
  lemma DryRunOverReports(t: Tables, target: Target, docs: seq<Doc>)
    requires !Run(t, target, false, docs).aborted
    ensures !Run(t, target, true, docs).aborted
    ensures Run(t, target, true, docs).imported
         == Run(t, target, false, docs).imported + |Hidden(t, target, docs)|
  {
    CompletesIffWinsFit(t, target, docs);
    DryRunCounts(t, target, docs);
  }

  /* A second run. */

  /** The lookup finds every valid document's slug. */
  predicate AllFound(t: Tables, target: Target, docs: seq<Doc>) {
    forall i :: 0 <= i < |docs| && Valid(docs[i]) ==> Found(target.fold, t.links, target.domainId, SlugOf(docs[i]))
  }

  predicate FoundOrHeld(t: Tables, target: Target, doc: Doc) {
    || Found(target.fold, t.links, target.domainId, SlugOf(doc))
    || Held(target.fold, t.links, target.domainId, SlugOf(doc))
  }

  /** A valid document is found in the table, hidden by a win, or a win. */
  lemma {:induction false} EveryDocumentIsSettled(t: Tables, target: Target, docs: seq<Doc>, i: nat)
    requires i < |docs| && Valid(docs[i])
    ensures var wins := Wins(t, target, docs);
      || Found(target.fold, t.links, target.domainId, SlugOf(docs[i]))
      || Hides(target, wins, docs[i])
      || docs[i] in wins
  {
    hide Found, Valid, SlugOf;
    var n := |docs| - 1;
    var before, wins := Wins(t, target, docs[..n]), Wins(t, target, docs);
    if i < n {
      EveryDocumentIsSettled(t, target, docs[..n], i);
      if Hides(target, before, docs[i]) {
        var k :| 0 <= k < |before| && target.fold.db(SlugOf(before[k])) == target.fold.js(SlugOf(docs[i]));
        assert wins[k] == before[k];
      }
    }
  }

  lemma FinishedSettles(t: Tables, target: Target, docs: seq<Doc>, i: nat)
    requires !Run(t, target, false, docs).aborted && i < |docs| && Valid(docs[i])
    ensures FoundOrHeld(Run(t, target, false, docs).tables, target, docs[i])
  {
    hide Run, Found, Held, Valid, SlugOf, Hides, LinksAre, Readable, AllFit;
    var after, wins := Run(t, target, false, docs).tables, Wins(t, target, docs);
    CompletesIffWinsFit(t, target, docs);
    EveryDocumentIsSettled(t, target, docs, i);
    FoundAmongWins(t, target, wins, after, docs[i]);
    HeldAmongWins(t, target, wins, after, docs[i]);
    if docs[i] in wins {
      var k :| 0 <= k < |wins| && wins[k] == docs[i];
      assert SameSlug(target, wins[k], docs[i]);
    }
  }

  lemma {:induction false} NothingLeft(t: Tables, target: Target, docs: seq<Doc>)
    requires forall i :: 0 <= i < |docs| && Valid(docs[i]) ==> FoundOrHeld(t, target, docs[i])
    requires Readable(docs)
    ensures var p := Run(t, target, false, docs);
      p.tables == t && p.imported == 0 && (!p.aborted <==> AllFound(t, target, docs))
  {
    hide Held, Found, Valid, SlugOf, RowRejected;
    if docs != [] {
      var n := |docs| - 1;
      forall i | 0 <= i < n && Valid(docs[..n][i])
        ensures FoundOrHeld(t, target, docs[..n][i])
      {
        assert docs[..n][i] == docs[i];
      }
      ReadablePrefix(docs);
      NothingLeft(t, target, docs[..n]);
      assert forall i :: 0 <= i < n ==> docs[..n][i] == docs[i];
      assert Valid(docs[n]) ==> FoundOrHeld(t, target, docs[n]);
    }
  }

  /** After a finished import every valid document's slug is found by the lookup or held by
      the index, and running it again imports nothing and changes nothing; it reaches its end
      if and only if the lookup finds them all. */
  lemma SecondRunImportsNothing(t: Tables, target: Target, docs: seq<Doc>)
    requires !Run(t, target, false, docs).aborted
    ensures var after := Run(t, target, false, docs).tables;
      var again := Run(after, target, false, docs);
      && (forall i :: 0 <= i < |docs| && Valid(docs[i]) ==> FoundOrHeld(after, target, docs[i]))
      && again.tables == after && again.imported == 0
      && (!again.aborted <==> AllFound(after, target, docs))
  {
    hide Run, FoundOrHeld, Valid, Readable, AllFound;
    var after := Run(t, target, false, docs).tables;
    forall i | 0 <= i < |docs| && Valid(docs[i])
      ensures FoundOrHeld(after, target, docs[i])
    {
      FinishedSettles(t, target, docs, i);
    }
    CompletesIffWinsFit(t, target, docs);
    NothingLeft(after, target, docs);
  }

  /* Where the two foldings agree. */

  /** The lookup and the index fold every slug that is looked up alike. */
  predicate FoldAlike(target: Target, docs: seq<Doc>) {
    forall i :: 0 <= i < |docs| && Valid(docs[i]) ==> Alike(target.fold, SlugOf(docs[i]))
  }

  /** Some valid document has the slug. */
  predicate Requested(target: Target, docs: seq<Doc>, doc: Doc) {
    exists j :: 0 <= j < |docs| && Valid(docs[j]) && SameSlug(target, docs[j], doc)
  }

  /** A valid document whose slug nobody held when the import began and no earlier valid
      document has. */
  predicate FirstClaim(t: Tables, target: Target, docs: seq<Doc>, i: nat)
    requires i < |docs|
  {
    && Valid(docs[i]) && !Held(target.fold, t.links, target.domainId, SlugOf(docs[i]))
    && !Requested(target, docs[..i], docs[i])
  }

  function FirstClaims(t: Tables, target: Target, docs: seq<Doc>): seq<Doc> {
    if docs == [] then []
    else
      var n := |docs| - 1;
      FirstClaims(t, target, docs[..n]) + if FirstClaim(t, target, docs, n) then [docs[n]] else []
  }

  /** Every win is one of the documents, and valid. */
  lemma {:induction false} WinsAreDocuments(t: Tables, target: Target, docs: seq<Doc>, k: nat)
    requires k < |Wins(t, target, docs)|
    ensures exists j :: 0 <= j < |docs| && docs[j] == Wins(t, target, docs)[k] && Valid(docs[j])
  {
    hide Valid, Found, Hides;
    var n := |docs| - 1;
    var before := Wins(t, target, docs[..n]);
    if k < |before| {
      WinsAreDocuments(t, target, docs[..n], k);
      var j :| 0 <= j < n && docs[..n][j] == before[k] && Valid(docs[..n][j]);
      assert docs[j] == Wins(t, target, docs)[k];
    } else {
      assert docs[n] == Wins(t, target, docs)[k];
    }
  }

  lemma HidesIffRequested(t: Tables, target: Target, docs: seq<Doc>, doc: Doc)
    requires FoldAlike(target, docs) && Alike(target.fold, SlugOf(doc))
    requires !Held(target.fold, t.links, target.domainId, SlugOf(doc))
    ensures Hides(target, Wins(t, target, docs), doc) <==> Requested(target, docs, doc)
  {
    hide Valid, SlugOf, Wins, Found;
    var wins := Wins(t, target, docs);
    if Hides(target, wins, doc) {
      var k :| 0 <= k < |wins| && target.fold.db(SlugOf(wins[k])) == target.fold.js(SlugOf(doc));
      WinsAreDocuments(t, target, docs, k);
      var j :| 0 <= j < |docs| && docs[j] == wins[k] && Valid(docs[j]);
      assert SameSlug(target, docs[j], doc);
    }
    if Requested(target, docs, doc) {
      var j :| 0 <= j < |docs| && Valid(docs[j]) && SameSlug(target, docs[j], doc);
      EveryDocumentIsSettled(t, target, docs, j);
      NotHeldEither(t, target, docs[j], doc);
      FoundIsHeld(target.fold, t.links, target.domainId, SlugOf(docs[j]));
      if docs[j] in wins {
        var k :| 0 <= k < |wins| && wins[k] == docs[j];
      }
    }
  }

  lemma NotHeldEither(t: Tables, target: Target, a: Doc, b: Doc)
    requires SameSlug(target, a, b) && !Held(target.fold, t.links, target.domainId, SlugOf(b))
    ensures !Held(target.fold, t.links, target.domainId, SlugOf(a))
  {
    hide SlugOf;
    assert forall i :: 0 <= i < |t.links| && Claims(target.fold, t.links[i], target.domainId, SlugOf(a)) ==>
      Claims(target.fold, t.links[i], target.domainId, SlugOf(b));
  }

  /** The columns and the tags index take every first claim. */
  predicate Storable(t: Tables, target: Target, docs: seq<Doc>) {
    forall k :: 0 <= k < |FirstClaims(t, target, docs)| ==> !Unstorable(target, FirstClaims(t, target, docs)[k])
  }

  /** There the wins are the first claims: one document per slug that was free, the
      earliest; and only the columns and the tags index can stop the import. */
  lemma {:induction false} WinsAreFirstClaims(t: Tables, target: Target, docs: seq<Doc>)
    requires FoldAlike(target, docs)
    ensures Wins(t, target, docs) == FirstClaims(t, target, docs)
    ensures AllFit(t, target, Wins(t, target, docs)) <==> Storable(t, target, docs)
  {
    hide Valid, SlugOf, Found, Held, Hides, Requested, Clashes, Unstorable, Alike;
    if docs != [] {
      var n := |docs| - 1;
      var before, doc := Wins(t, target, docs[..n]), docs[n];
      WinsAreFirstClaims(t, target, docs[..n]);
      if Valid(doc) {
        FoundIsHeld(target.fold, t.links, target.domainId, SlugOf(doc));
        if !Held(target.fold, t.links, target.domainId, SlugOf(doc)) {
          HidesIffRequested(t, target, docs[..n], doc);
        }
      }
      assert before + [] == before;
      if IsWin(t, target, before, doc) {
        AllFitSnoc(t, target, before, doc);
        assert (before + [doc])[..|before|] == before;
        HidesIsClash(target, before, doc);
      }
    }
  }

  lemma HidesIsClash(target: Target, wins: seq<Doc>, doc: Doc)
    requires Alike(target.fold, SlugOf(doc))
    ensures Hides(target, wins, doc) <==> Clashes(target, wins, doc)
  {
    hide SlugOf;
    assert forall k :: 0 <= k < |wins| ==>
      (target.fold.db(SlugOf(wins[k])) == target.fold.js(SlugOf(doc)) <==> SameSlug(target, wins[k], doc));
  }

  /** There the import reaches its end if and only if every slug it looks up is readable and
      every first claim of a free slug can be stored, and it has then imported the first
      claims. */
  lemma CompletesIffStorable(t: Tables, target: Target, docs: seq<Doc>)
    requires FoldAlike(target, docs)
    ensures !Run(t, target, false, docs).aborted <==> Readable(docs) && Storable(t, target, docs)
    ensures !Run(t, target, false, docs).aborted ==>
      Run(t, target, false, docs).imported == |FirstClaims(t, target, docs)|
  {
    hide Run, Readable, AllFit, Wins, FirstClaims, Storable;
    CompletesIffWinsFit(t, target, docs);
    WinsAreFirstClaims(t, target, docs);
  }

  /** There a finished import can be run again. */
  lemma SecondRunCompletes(t: Tables, target: Target, docs: seq<Doc>)
    requires FoldAlike(target, docs) && !Run(t, target, false, docs).aborted
    ensures !Run(Run(t, target, false, docs).tables, target, false, docs).aborted
  {
    hide Run, FoundOrHeld, Valid;
    var p := Run(t, target, false, docs);
    SecondRunImportsNothing(t, target, docs);
    forall i | 0 <= i < |docs| && Valid(docs[i])
      ensures Found(target.fold, p.tables.links, target.domainId, SlugOf(docs[i]))
    {
      FoundWhereAlike(p.tables, target, docs[i]);
    }
  }

  lemma FoundWhereAlike(t: Tables, target: Target, doc: Doc)
    requires FoundOrHeld(t, target, doc) && Alike(target.fold, SlugOf(doc))
    ensures Found(target.fold, t.links, target.domainId, SlugOf(doc))
  {
    FoundIsHeld(target.fold, t.links, target.domainId, SlugOf(doc));
  }

  /* Where they do not. */

  lemma OneDocument(t: Tables, target: Target, doc: Doc)
    ensures Wins(t, target, [doc]) ==
      if Valid(doc) && !Found(target.fold, t.links, target.domainId, SlugOf(doc)) then [doc] else []
    ensures Hidden(t, target, [doc]) == []
    ensures Valid(doc) && NUL !in SlugOf(doc) ==> Readable([doc])
    ensures AllFit(t, target, [doc]) <==>
      !Unstorable(target, doc) && !Held(target.fold, t.links, target.domainId, SlugOf(doc))
  {
    hide Valid, SlugOf, Found, Held, Unstorable;
    assert [doc][..0] == [];
    assert Wins(t, target, []) == [] && !Hides(target, [], doc);
    assert AllFit(t, target, [doc]) <==> Fits(t, target, [doc], 0);
  }

  /** A document whose slug the lookup misses and the index holds: the dry run reports it as
      imported, and the import stops on it with nothing written. */
  lemma MissedSlugStops(t: Tables, target: Target, doc: Doc)
    requires Valid(doc) && NUL !in SlugOf(doc)
    requires Held(target.fold, t.links, target.domainId, SlugOf(doc))
    requires !Found(target.fold, t.links, target.domainId, SlugOf(doc))
    ensures Run(t, target, true, [doc]).imported == 1 && !Run(t, target, true, [doc]).aborted
    ensures Run(t, target, false, [doc]).aborted && Run(t, target, false, [doc]).tables == t
  {
    OneDocument(t, target, doc);
    DryRunCounts(t, target, [doc]);
    CompletesIffWinsFit(t, target, [doc]);
    hide Held, Found, Valid, SlugOf;
    assert [doc][..0] == [];
    assert Run(t, target, false, []) == Progress(t, 0, 0, 0, false);
  }

  /** A storable document with a slug that the two foldings read differently, and no links to
      begin with: the import takes it, and stops on it when it is run again, though a dry run
      would report it as imported once more. */
  lemma UnlikeSlugStopsSecondRun(t: Tables, target: Target, doc: Doc)
    requires t.links == [] && Valid(doc) && NUL !in SlugOf(doc) && !Unstorable(target, doc)
    requires !Alike(target.fold, SlugOf(doc))
    ensures var p := Run(t, target, false, [doc]);
      && !p.aborted && p.imported == 1
      && Run(p.tables, target, false, [doc]).aborted
      && !Run(p.tables, target, true, [doc]).aborted && Run(p.tables, target, true, [doc]).imported == 1
  {
    hide Run, Valid, SlugOf, Unstorable;
    OneDocument(t, target, doc);
    CompletesIffWinsFit(t, target, [doc]);
    var p := Run(t, target, false, [doc]);
    assert p.tables.links == [WinLink(t, target, [doc], 0)];
    assert Claims(target.fold, p.tables.links[0], target.domainId, SlugOf(doc));
    MissedSlugStops(p.tables, target, doc);
  }
}
