/** Validation issues, at most one per field: unrecognised keys are expanded to one
    issue each, then the first issue of every id is kept. */
module IssueDedupe {
  import opened Text
  import Decimal

  datatype PathKey = Name(name: string) | Index(index: nat)

  datatype Code = UnrecognizedKeys(keys: seq<string>) | OtherCode

  datatype RawIssue = RawIssue(path: seq<PathKey>, message: string, code: Code)

  /** `rejectedKey` marks the issues that carry the code unrecognized_key. */
  datatype Issue = Issue(path: string, message: string, rejectedKey: bool)

  /** The wording for one rejected key of an object. */
  type Wording = (seq<PathKey>, string) -> string

  function KeyText(k: PathKey): string {
    match k
    case Name(s) => s
    case Index(n) => Decimal.OfNat(n)
  }

  function Joined(path: seq<PathKey>): string {
    if path == [] then ""
    else if |path| == 1 then KeyText(path[0])
    else KeyText(path[0]) + "." + Joined(path[1..])
  }

  function KeyIssue(wording: Wording, path: seq<PathKey>, key: string): Issue {
    Issue(Joined(path + [Name(key)]), wording(path, key), true)
  }

  function KeyIssues(wording: Wording, path: seq<PathKey>, keys: seq<string>): seq<Issue> {
    if keys == [] then []
    else
      var n := |keys| - 1;
      KeyIssues(wording, path, keys[..n]) + [KeyIssue(wording, path, keys[n])]
  }

  function ExpandOne(wording: Wording, issue: RawIssue): seq<Issue> {
    if issue.code.UnrecognizedKeys? && issue.code.keys != [] then KeyIssues(wording, issue.path, issue.code.keys)
    else [Issue(Joined(issue.path), issue.message, false)]
  }

  function Expanded(wording: Wording, issues: seq<RawIssue>): seq<Issue> {
    if issues == [] then []
    else
      var n := |issues| - 1;
      Expanded(wording, issues[..n]) + ExpandOne(wording, issues[n])
  }

  const NUL := "\0"

  function IdOf(issue: Issue): string {
    if issue.path == "" then NUL + issue.message else issue.path
  }

  /** The first issue of each id, in order. */
  function Firsts(all: seq<Issue>): seq<Issue> {
    if all == [] then []
    else
      var n := |all| - 1;
      if exists i :: 0 <= i < n && IdOf(all[i]) == IdOf(all[n]) then Firsts(all[..n]) else Firsts(all[..n]) + [all[n]]
  }

  predicate SeenIds(all: seq<Issue>, seen: set<string>) {
    && (forall i :: 0 <= i < |all| ==> IdOf(all[i]) in seen)
    && (forall id <- seen :: exists i :: 0 <= i < |all| && IdOf(all[i]) == id)
  }

  lemma SeenSnoc(all: seq<Issue>, seen: set<string>, issue: Issue)
    requires SeenIds(all, seen)
    ensures SeenIds(all + [issue], seen + {IdOf(issue)})
    ensures Firsts(all + [issue]) == if IdOf(issue) in seen then Firsts(all) else Firsts(all) + [issue]
  {
    hide IdOf;
    var more := all + [issue];
    assert more[..|all|] == all;
    assert more[|all|] == issue;
    forall id | id in seen + {IdOf(issue)}
      ensures exists i :: 0 <= i < |more| && IdOf(more[i]) == id
    {
      if id in seen {
        var i :| 0 <= i < |all| && IdOf(all[i]) == id;
        assert IdOf(more[i]) == id;
      } else {
        assert IdOf(more[|all|]) == id;
      }
    }
    if IdOf(issue) in seen {
      var i :| 0 <= i < |all| && IdOf(all[i]) == IdOf(issue);
      assert IdOf(more[i]) == IdOf(issue);
    }
  }

  /* What the expansion holds. */

  /** The path of a key: the object's own path, a dot and the key; the key alone at the root. */
  function UnderPath(path: seq<PathKey>, key: string): string {
    if path == [] then key else Joined(path) + "." + key
  }

  lemma {:induction false} JoinedSnoc(path: seq<PathKey>, key: string)
    ensures Joined(path + [Name(key)]) == UnderPath(path, key)
  {
    var all := path + [Name(key)];
    if path == [] {
      assert all[0] == Name(key);
    } else {
      assert all[1..] == path[1..] + [Name(key)];
      JoinedSnoc(path[1..], key);
      var dot, head := ".", KeyText(path[0]);
      if |path| > 1 {
        var tail := Joined(path[1..]);
        assert head + dot + (tail + dot + key) == head + dot + tail + dot + key;
      } else {
        assert all[1..] == [Name(key)];
      }
    }
  }

  /** An entry that one reported issue gives: for rejected keys one of each, with the wording
      for that key and the code unrecognized_key, and otherwise its own message. */
  predicate IsEntryOf(wording: Wording, issue: RawIssue, e: Issue) {
    if issue.code.UnrecognizedKeys? && issue.code.keys != [] then
      exists key <- issue.code.keys :: e == Issue(UnderPath(issue.path, key), wording(issue.path, key), true)
    else e == Issue(Joined(issue.path), issue.message, false)
  }

  lemma {:induction false} KeyIssuesAre(wording: Wording, path: seq<PathKey>, keys: seq<string>)
    ensures forall e :: e in KeyIssues(wording, path, keys) <==>
      exists key <- keys :: e == Issue(UnderPath(path, key), wording(path, key), true)
  {
    hide UnderPath, Joined;
    if keys != [] {
      var n := |keys| - 1;
      KeyIssuesAre(wording, path, keys[..n]);
      JoinedSnoc(path, keys[n]);
      assert keys == keys[..n] + [keys[n]];
    }
  }

  /** The expansion has exactly the entries of the reported issues. */
  lemma {:induction false} ExpandedIsEntries(wording: Wording, issues: seq<RawIssue>)
    ensures forall e :: e in Expanded(wording, issues) <==> exists issue <- issues :: IsEntryOf(wording, issue, e)
  {
    if issues != [] {
      var n := |issues| - 1;
      ExpandedIsEntries(wording, issues[..n]);
      KeyIssuesAre(wording, issues[n].path, if issues[n].code.UnrecognizedKeys? then issues[n].code.keys else []);
      hide UnderPath, Joined, KeyIssues;
      assert forall e :: e in ExpandOne(wording, issues[n]) <==> IsEntryOf(wording, issues[n], e);
      hide ExpandOne, IsEntryOf;
      assert issues == issues[..n] + [issues[n]];
    }
  }

  class Collector {
    var seen: set<string>
    var out: seq<Issue>
    ghost var pushed: seq<Issue>

    ghost predicate Valid()
      reads this
    {
      SeenIds(pushed, seen) && out == Firsts(pushed)
    }

    constructor ()
      ensures Valid() && pushed == []
    {
      seen, out, pushed := {}, [], [];
    }

    method Push(issue: Issue)
      requires Valid()
      modifies this
      ensures Valid() && pushed == old(pushed) + [issue]
    {
      SeenSnoc(pushed, seen, issue);
      var id := IdOf(issue);
      pushed := pushed + [issue];
      if id in seen {
        assert seen + {id} == seen;
        return;
      }
      seen := seen + {id};
      out := out + [issue];
    }
  }

  method DedupeIssuesByField(wording: Wording, issues: seq<RawIssue>) returns (out: seq<Issue>)
    ensures out == Firsts(Expanded(wording, issues))
  {
    hide Firsts, SeenIds, Joined, KeyIssue, IdOf;
    var c := new Collector();
    for i := 0 to |issues|
      invariant c.Valid() && fresh(c)
      invariant c.pushed == Expanded(wording, issues[..i])
    {
      assert issues[..i + 1][..i] == issues[..i];
      var issue := issues[i];
      if issue.code.UnrecognizedKeys? && |issue.code.keys| > 0 {
        var keys := issue.code.keys;
        ghost var before := c.pushed;
        for j := 0 to |keys|
          invariant c.Valid() && fresh(c)
          invariant c.pushed == before + KeyIssues(wording, issue.path, keys[..j])
        {
          assert keys[..j + 1][..j] == keys[..j];
          c.Push(KeyIssue(wording, issue.path, keys[j]));
        }
        assert keys[..|keys|] == keys;
      } else {
        c.Push(Issue(Joined(issue.path), issue.message, false));
      }
    }
    assert issues[..|issues|] == issues;
    out := c.out;
  }

  /* What is kept. */

  predicate DistinctIds(issues: seq<Issue>) {
    forall i, j :: 0 <= i < j < |issues| ==> IdOf(issues[i]) != IdOf(issues[j])
  }

  /** The first issue with the given issue's id is at i. */
  predicate FirstAt(all: seq<Issue>, i: nat) {
    i < |all| && forall j :: 0 <= j < i ==> IdOf(all[j]) != IdOf(all[i])
  }

  lemma {:induction false} KeptAreFirst(all: seq<Issue>)
    ensures forall k <- Firsts(all) :: exists i: nat :: FirstAt(all, i) && all[i] == k
  {
    hide IdOf;
    if all != [] {
      var n := |all| - 1;
      KeptAreFirst(all[..n]);
      forall k | k in Firsts(all)
        ensures exists i: nat :: FirstAt(all, i) && all[i] == k
      {
        if k in Firsts(all[..n]) {
          var i: nat :| FirstAt(all[..n], i) && all[..n][i] == k;
          assert FirstAt(all, i) && all[i] == k;
        } else {
          assert FirstAt(all, n) && all[n] == k;
        }
      }
    }
  }

  lemma {:induction false} FirstsAreKept(all: seq<Issue>, i: nat)
    requires FirstAt(all, i)
    ensures all[i] in Firsts(all)
  {
    hide IdOf;
    var n := |all| - 1;
    if i < n {
      assert FirstAt(all[..n], i);
      FirstsAreKept(all[..n], i);
    }
  }

  lemma {:induction false} KeptAreDistinct(all: seq<Issue>)
    ensures DistinctIds(Firsts(all))
  {
    hide IdOf;
    if all != [] {
      var n := |all| - 1;
      KeptAreDistinct(all[..n]);
      KeptAreFirst(all[..n]);
      forall k | k in Firsts(all[..n])
        ensures exists i :: 0 <= i < n && IdOf(all[i]) == IdOf(k)
      {
        var i: nat :| FirstAt(all[..n], i) && all[..n][i] == k;
        assert IdOf(all[i]) == IdOf(k);
      }
    }
  }

  /** One issue per id: every id keeps its first issue, and nothing else is kept. */
  lemma KeepsFirstOfEachId(all: seq<Issue>)
    ensures DistinctIds(Firsts(all))
    ensures forall i: nat :: FirstAt(all, i) ==> all[i] in Firsts(all)
    ensures forall k <- Firsts(all) :: exists i: nat :: FirstAt(all, i) && all[i] == k
  {
    hide IdOf, Firsts, DistinctIds;
    KeptAreDistinct(all);
    KeptAreFirst(all);
    forall i: nat | FirstAt(all, i)
      ensures all[i] in Firsts(all)
    {
      FirstsAreKept(all, i);
    }
  }

  function FirstWith(all: seq<Issue>, id: string): (i: nat)
    requires exists j :: 0 <= j < |all| && IdOf(all[j]) == id
    ensures FirstAt(all, i) && IdOf(all[i]) == id
  {
    if IdOf(all[0]) == id then 0 else
      assert exists j :: 0 <= j < |all[1..]| && IdOf(all[1..][j]) == id by {
        var j :| 0 <= j < |all| && IdOf(all[j]) == id;
        assert IdOf(all[1..][j - 1]) == id;
      }
      var i := 1 + FirstWith(all[1..], id);
      assert forall j :: 1 <= j < i ==> all[j] == all[1..][j - 1];
      i
  }

  /* No path and no root message is lost, unless two ids coincide. */

  predicate HasPath(issues: seq<Issue>, path: string) {
    exists i :: 0 <= i < |issues| && issues[i].path == path
  }

  predicate HasRootMessage(issues: seq<Issue>, message: string) {
    exists i :: 0 <= i < |issues| && issues[i].path == "" && issues[i].message == message
  }

  /** A field's path spells the id of a root message. */
  predicate IdClash(all: seq<Issue>) {
    exists i, j :: 0 <= i < |all| && 0 <= j < |all|
      && all[i].path == "" && all[j].path == NUL + all[i].message
  }

  predicate NothingLost(all: seq<Issue>) {
    && (forall i :: 0 <= i < |all| && all[i].path != "" ==> HasPath(Firsts(all), all[i].path))
    && (forall i :: 0 <= i < |all| && all[i].path == "" ==> HasRootMessage(Firsts(all), all[i].message))
  }

  lemma KeptWithId(all: seq<Issue>, i: nat) returns (k: nat)
    requires i < |all|
    ensures k < |Firsts(all)| && IdOf(Firsts(all)[k]) == IdOf(all[i]) && Firsts(all)[k] in all
  {
    KeepsFirstOfEachId(all);
    var f := FirstWith(all, IdOf(all[i]));
    k :| 0 <= k < |Firsts(all)| && Firsts(all)[k] == all[f];
  }

  /** Every joined path and every root message keeps an entry if and only if no path is the
      NUL-prefixed text of a root message. */
  lemma NothingLostIffNoClash(all: seq<Issue>)
    ensures NothingLost(all) <==> !IdClash(all)
  {
    if IdClash(all) {
      var i, j :| 0 <= i < |all| && 0 <= j < |all| && all[i].path == "" && all[j].path == NUL + all[i].message;
      ClashLosesOne(all, i, j);
    } else {
      forall i | 0 <= i < |all|
        ensures all[i].path != "" ==> HasPath(Firsts(all), all[i].path)
        ensures all[i].path == "" ==> HasRootMessage(Firsts(all), all[i].message)
      {
        var k := KeptWithId(all, i);
        var kept := Firsts(all)[k];
        var j :| 0 <= j < |all| && all[j] == kept;
        NulPrefix(kept.message, all[i].message);
      }
    }
  }

  lemma NulPrefix(a: string, b: string)
    ensures NUL + a == NUL + b <==> a == b
  {
    assert (NUL + a)[1..] == a && (NUL + b)[1..] == b;
  }

  lemma ClashLosesOne(all: seq<Issue>, i: nat, j: nat)
    requires i < |all| && j < |all| && all[i].path == "" && all[j].path == NUL + all[i].message
    ensures !NothingLost(all)
  {
    if NothingLost(all) {
      var a :| 0 <= a < |Firsts(all)| && Firsts(all)[a].path == all[j].path;
      var b :| 0 <= b < |Firsts(all)| && Firsts(all)[b].path == "" && Firsts(all)[b].message == all[i].message;
      SameIdSamePlace(all, a, b);
    }
  }

  lemma SameIdSamePlace(all: seq<Issue>, a: nat, b: nat)
    requires a < |Firsts(all)| && b < |Firsts(all)| && IdOf(Firsts(all)[a]) == IdOf(Firsts(all)[b])
    ensures a == b
  {
    KeepsFirstOfEachId(all);
  }

  /** A body key that is NUL and the text of a root refinement hides it. */
  lemma RootMessageCanBeHidden()
    ensures var all := [Issue("\0x", "m", true), Issue("", "x", false)];
      IdClash(all) && Firsts(all) == [Issue("\0x", "m", true)]
  {
    var all := [Issue("\0x", "m", true), Issue("", "x", false)];
    assert all[1].path == "" && all[0].path == NUL + all[1].message;
    assert IdOf(all[0]) == IdOf(all[1]);
    assert all[..1] == [all[0]] && all[..1][..0] == [];
    assert Firsts(all[..1]) == [all[0]];
  }

  /* Which field keeps its own entry. */

  function KeyPlaces(path: seq<PathKey>, keys: seq<string>): seq<seq<PathKey>> {
    if keys == [] then []
    else
      var n := |keys| - 1;
      KeyPlaces(path, keys[..n]) + [path + [Name(keys[n])]]
  }

  /** The field each expanded issue is about, as segments. */
  function Places(issues: seq<RawIssue>): seq<seq<PathKey>> {
    if issues == [] then []
    else
      var n := |issues| - 1;
      Places(issues[..n])
      + if issues[n].code.UnrecognizedKeys? && issues[n].code.keys != [] then KeyPlaces(issues[n].path, issues[n].code.keys)
        else [issues[n].path]
  }

  lemma {:induction false} KeyPlacesJoin(wording: Wording, path: seq<PathKey>, keys: seq<string>)
    ensures |KeyPlaces(path, keys)| == |KeyIssues(wording, path, keys)| == |keys|
    ensures forall i :: 0 <= i < |keys| ==> KeyIssues(wording, path, keys)[i].path == Joined(KeyPlaces(path, keys)[i])
  {
    hide Joined;
    if keys != [] {
      KeyPlacesJoin(wording, path, keys[..|keys| - 1]);
    }
  }

  lemma {:induction false} PlacesJoin(wording: Wording, issues: seq<RawIssue>)
    ensures |Places(issues)| == |Expanded(wording, issues)|
    ensures forall i :: 0 <= i < |Places(issues)| ==> Expanded(wording, issues)[i].path == Joined(Places(issues)[i])
  {
    hide Joined, KeyPlaces, KeyIssues;
    if issues != [] {
      var n := |issues| - 1;
      PlacesJoin(wording, issues[..n]);
      if issues[n].code.UnrecognizedKeys? {
        KeyPlacesJoin(wording, issues[n].path, issues[n].code.keys);
      }
    }
  }

  /** Some kept issue is about the same field as the i-th one. */
  predicate OwnEntry(all: seq<Issue>, places: seq<seq<PathKey>>, i: nat)
    requires i < |all| == |places|
  {
    exists k :: 0 <= k < |all| && FirstAt(all, k) && places[k] == places[i]
  }

  /** Every field with a path keeps an entry of its own, and so does every root message. */
  predicate EachKeepsItsOwn(all: seq<Issue>, places: seq<seq<PathKey>>)
    requires |all| == |places|
  {
    && (forall i :: 0 <= i < |all| && all[i].path != "" ==> OwnEntry(all, places, i))
    && (forall i :: 0 <= i < |all| && all[i].path == "" ==> HasRootMessage(Firsts(all), all[i].message))
  }

  /** Two different fields spell one path. */
  predicate PathClash(all: seq<Issue>, places: seq<seq<PathKey>>)
    requires |all| == |places|
  {
    exists i, j :: 0 <= i < |all| && 0 <= j < |all|
      && all[i].path == all[j].path != "" && places[i] != places[j]
  }

  /** Every field and every root message keeps its own entry if and only if no two different
      fields spell one path and no path is the NUL-prefixed text of a root message. */
  lemma EachKeepsItsOwnIffNoClash(wording: Wording, issues: seq<RawIssue>)
    ensures var all, places := Expanded(wording, issues), Places(issues);
      && |all| == |places|
      && (EachKeepsItsOwn(all, places) <==> !PathClash(all, places) && !IdClash(all))
  {
    var all, places := Expanded(wording, issues), Places(issues);
    PlacesJoin(wording, issues);
    hide Expanded, Places, Joined, Firsts;
    NothingLostIffNoClash(all);
    if EachKeepsItsOwn(all, places) {
      OwnEntriesLoseNothing(all, places);
      OwnEntriesDoNotClash(all, places);
    } else if !PathClash(all, places) && !IdClash(all) {
      WithoutClashOwnEntries(all, places);
    }
  }

  lemma OwnEntriesLoseNothing(all: seq<Issue>, places: seq<seq<PathKey>>)
    requires |all| == |places| && EachKeepsItsOwn(all, places)
    requires forall i :: 0 <= i < |all| ==> all[i].path == Joined(places[i])
    ensures NothingLost(all)
  {
    hide Joined, Firsts;
    forall i | 0 <= i < |all| && all[i].path != ""
      ensures HasPath(Firsts(all), all[i].path)
    {
      assert OwnEntry(all, places, i);
      var k :| 0 <= k < |all| && FirstAt(all, k) && places[k] == places[i];
      FirstsAreKept(all, k);
      var f :| 0 <= f < |Firsts(all)| && Firsts(all)[f] == all[k];
      assert Firsts(all)[f].path == all[i].path;
    }
  }

  lemma OwnFirst(all: seq<Issue>, places: seq<seq<PathKey>>, i: nat) returns (k: nat)
    requires i < |all| == |places| && EachKeepsItsOwn(all, places) && all[i].path != ""
    requires forall i :: 0 <= i < |all| ==> all[i].path == Joined(places[i])
    ensures FirstAt(all, k) && IdOf(all[k]) == all[i].path && places[k] == places[i]
  {
    hide Joined, HasRootMessage, Firsts;
    assert OwnEntry(all, places, i);
    k :| 0 <= k < |all| && FirstAt(all, k) && places[k] == places[i];
  }

  lemma FirstIsOne(all: seq<Issue>, k: nat, m: nat)
    requires FirstAt(all, k) && FirstAt(all, m) && IdOf(all[k]) == IdOf(all[m])
    ensures k == m
  {
  }

  lemma OwnEntriesDoNotClash(all: seq<Issue>, places: seq<seq<PathKey>>)
    requires |all| == |places| && EachKeepsItsOwn(all, places)
    requires forall i :: 0 <= i < |all| ==> all[i].path == Joined(places[i])
    ensures !PathClash(all, places)
  {
    hide Joined, EachKeepsItsOwn, FirstAt, IdOf;
    forall i, j | 0 <= i < |all| && 0 <= j < |all| && all[i].path == all[j].path != ""
      ensures places[i] == places[j]
    {
      var k := OwnFirst(all, places, i);
      var m := OwnFirst(all, places, j);
      FirstIsOne(all, k, m);
    }
  }

  lemma WithoutClashOwnEntries(all: seq<Issue>, places: seq<seq<PathKey>>)
    requires |all| == |places| && !PathClash(all, places) && !IdClash(all)
    ensures EachKeepsItsOwn(all, places)
  {
    hide Firsts;
    NothingLostIffNoClash(all);
    forall i | 0 <= i < |all| && all[i].path != ""
      ensures OwnEntry(all, places, i)
    {
      var k := FirstWith(all, IdOf(all[i]));
      assert FirstAt(all, k) && places[k] == places[i];
    }
  }

  /* Fields a caller can rely on. */

  /** A segment that a joined path shows as it is: without a dot, and not empty. */
  predicate Visible(k: PathKey) {
    KeyText(k) != "" && '.' !in KeyText(k)
  }

  predicate AllVisible(path: seq<PathKey>) {
    forall i :: 0 <= i < |path| ==> Visible(path[i])
  }

  /** A name that no array index spells. */
  predicate NoNumeral(k: PathKey) {
    k.Name? ==> !Decimal.AllDigits(k.name)
  }

  /** A path of visible segments has a dot exactly between them. */
  lemma JoinedShape(path: seq<PathKey>)
    requires AllVisible(path)
    ensures path == [] <==> Joined(path) == ""
    ensures '.' in Joined(path) <==> |path| > 1
  {
    if |path| > 1 {
      var a, x := KeyText(path[0]), Joined(path[1..]);
      assert (a + "." + x)[|a|] == '.';
    }
  }

  /** Paths of visible segments that join alike have the same texts. */
  lemma {:induction false} JoinedTexts(p: seq<PathKey>, q: seq<PathKey>)
    requires AllVisible(p) && AllVisible(q) && Joined(p) == Joined(q)
    ensures |p| == |q| && forall i :: 0 <= i < |p| ==> KeyText(p[i]) == KeyText(q[i])
  {
    JoinedShape(p);
    JoinedShape(q);
    if |p| > 1 {
      SplitAtFirst('.', KeyText(p[0]), Joined(p[1..]), KeyText(q[0]), Joined(q[1..]));
      JoinedTexts(p[1..], q[1..]);
      forall i | 1 <= i < |p|
        ensures KeyText(p[i]) == KeyText(q[i])
      {
        assert KeyText(p[1..][i - 1]) == KeyText(q[1..][i - 1]);
      }
    }
  }

  lemma SameTextSameKey(a: PathKey, b: PathKey)
    requires KeyText(a) == KeyText(b) && (a.Name? <==> b.Name?)
    ensures a == b
  {
    if a.Index? {
      Decimal.OfNatInjective(a.index, b.index);
    }
  }

  lemma NumeralsAreIndices(a: PathKey, b: PathKey)
    requires KeyText(a) == KeyText(b) && NoNumeral(a) && NoNumeral(b)
    ensures a == b
  {
    if a.Index? {
      Decimal.ValueOfNat(a.index);
    }
    if b.Index? {
      Decimal.ValueOfNat(b.index);
    }
    SameTextSameKey(a, b);
  }

  /** What a caller can check of the fields it reports: no segment is empty, has a dot or
      begins with NUL, and no name is a numeral, unless all segments are names. */
  predicate PlainPlaces(places: seq<seq<PathKey>>) {
    && (forall i :: 0 <= i < |places| ==> AllVisible(places[i]))
    && (forall i, k :: 0 <= i < |places| && 0 <= k < |places[i]| ==> KeyText(places[i][k])[..1] != NUL)
    && ((forall i, k :: 0 <= i < |places| && 0 <= k < |places[i]| ==> places[i][k].Name?)
        || (forall i, k :: 0 <= i < |places| && 0 <= k < |places[i]| ==> NoNumeral(places[i][k])))
  }

  lemma PlainPlacesDiffer(places: seq<seq<PathKey>>, i: nat, j: nat)
    requires PlainPlaces(places) && i < |places| && j < |places| && Joined(places[i]) == Joined(places[j])
    ensures places[i] == places[j]
  {
    hide Joined, KeyText;
    var p, q := places[i], places[j];
    JoinedTexts(p, q);
    forall k | 0 <= k < |p|
      ensures p[k] == q[k]
    {
      if p[k].Name? && q[k].Name? {
        SameTextSameKey(p[k], q[k]);
      } else {
        NumeralsAreIndices(p[k], q[k]);
      }
    }
  }

  lemma FirstCharacter(path: seq<PathKey>)
    requires path != [] && KeyText(path[0]) != ""
    ensures Joined(path) != "" && Joined(path)[..1] == KeyText(path[0])[..1]
  {
  }

  /** Plain fields keep their own entries, whatever else is reported. */
  lemma PlainFieldsKeepTheirOwn(wording: Wording, issues: seq<RawIssue>)
    requires PlainPlaces(Places(issues))
    ensures |Places(issues)| == |Expanded(wording, issues)|
    ensures EachKeepsItsOwn(Expanded(wording, issues), Places(issues))
  {
    var all, places := Expanded(wording, issues), Places(issues);
    PlacesJoin(wording, issues);
    EachKeepsItsOwnIffNoClash(wording, issues);
    hide Expanded, Places, Joined, EachKeepsItsOwn, KeyText;
    forall i, j | 0 <= i < |all| && 0 <= j < |all| && all[i].path == all[j].path
      ensures places[i] == places[j]
    {
      PlainPlacesDiffer(places, i, j);
    }
    forall j, message | 0 <= j < |all| && all[j].path == NUL + message
      ensures false
    {
      assert all[j].path[..1] == NUL;
      NulIsHidden(places[j]);
    }
  }

  lemma NulIsHidden(path: seq<PathKey>)
    requires AllVisible(path) && forall k :: 0 <= k < |path| ==> KeyText(path[k])[..1] != NUL
    ensures Joined(path) == "" || Joined(path)[..1] != NUL
  {
    if path != [] {
      FirstCharacter(path);
    }
  }

  /** A numeral and the array index it spells join alike. */
  lemma NumeralsJoinAlike(n: nat)
    ensures Joined([Name(Decimal.OfNat(n))]) == Joined([Index(n)]) && Name(Decimal.OfNat(n)) != Index(n)
  {
  }

  /** Two fields whose names join to one path share an entry: one of them has none of its own. */
  lemma JoinedPathsCanCoincide(wording: Wording)
    ensures var dotted, nested := [Name("a.b")], [Name("a"), Name("b")];
      var issues := [RawIssue(dotted, "x", OtherCode), RawIssue(nested, "y", OtherCode)];
      |Places(issues)| == |Expanded(wording, issues)| && !EachKeepsItsOwn(Expanded(wording, issues), Places(issues))
  {
    var dotted, nested := [Name("a.b")], [Name("a"), Name("b")];
    var issues := [RawIssue(dotted, "x", OtherCode), RawIssue(nested, "y", OtherCode)];
    assert issues[..1] == [issues[0]] && issues[..1][..0] == [];
    assert Places(issues[..1]) == [dotted];
    assert Places(issues) == [dotted, nested];
    assert nested[1..] == [Name("b")];
    assert Joined(dotted) == "a.b" && Joined(nested) == "a" + "." + "b" == "a.b";
    PlacesJoin(wording, issues);
    EachKeepsItsOwnIffNoClash(wording, issues);
    var all, places := Expanded(wording, issues), Places(issues);
    assert all[0].path == all[1].path == "a.b" && places[0] != places[1];
  }

  /* A second pass. */

  function AsRaw(issues: seq<Issue>): seq<RawIssue> {
    seq(|issues|, i requires 0 <= i < |issues| =>
      RawIssue(if issues[i].path == "" then [] else [Name(issues[i].path)], issues[i].message, OtherCode))
  }

  function WithoutCodes(issues: seq<Issue>): seq<Issue> {
    seq(|issues|, i requires 0 <= i < |issues| => Issue(issues[i].path, issues[i].message, false))
  }

  lemma {:induction false} ExpandedAgain(wording: Wording, issues: seq<Issue>)
    ensures Expanded(wording, AsRaw(issues)) == WithoutCodes(issues)
  {
    if issues != [] {
      var n := |issues| - 1;
      ExpandedAgain(wording, issues[..n]);
      assert AsRaw(issues)[..n] == AsRaw(issues[..n]);
      assert WithoutCodes(issues) == WithoutCodes(issues[..n]) + [Issue(issues[n].path, issues[n].message, false)];
    }
  }

  lemma {:induction false} FirstsOfDistinct(issues: seq<Issue>)
    requires DistinctIds(issues)
    ensures Firsts(issues) == issues
  {
    if issues != [] {
      var n := |issues| - 1;
      FirstsOfDistinct(issues[..n]);
      assert issues == issues[..n] + [issues[n]];
    }
  }

  /** Deduplicating the result again changes nothing but the optional code. */
  lemma SecondPassChangesNothing(wording: Wording, issues: seq<RawIssue>)
    ensures var once := Firsts(Expanded(wording, issues));
      Firsts(Expanded(wording, AsRaw(once))) == WithoutCodes(once)
  {
    var once := Firsts(Expanded(wording, issues));
    KeepsFirstOfEachId(Expanded(wording, issues));
    ExpandedAgain(wording, once);
    FirstsOfDistinct(WithoutCodes(once));
  }
}
