/** The dedupe key of kill-switch refusals: one audit row per switch, reason, subject
    and minute. */
module RefusalDedupe {
  import opened Options
  import opened Text
  import Decimal

  datatype Switch =
    | BillingCheckout | BillingPlanChanges | BillingCoupons | BillingTrials | BillingRefunds
    | CustomDomainsCreate | EmailOutbound | ErrorTracking | LinkScanningRescans

  datatype Reason = FeatureOff | CapReached

  datatype Subject = Subject(workspaceId: Option<string>, actorId: Option<string>)

  const WINDOW_MS := 60_000

  function SwitchKey(s: Switch): string {
    match s
    case BillingCheckout => "billing.checkout"
    case BillingPlanChanges => "billing.planChanges"
    case BillingCoupons => "billing.coupons"
    case BillingTrials => "billing.trials"
    case BillingRefunds => "billing.refunds"
    case CustomDomainsCreate => "customDomains.create"
    case EmailOutbound => "email.outbound"
    case ErrorTracking => "errorTracking"
    case LinkScanningRescans => "linkScanning.rescans"
  }

  function ReasonCode(r: Reason): string {
    match r
    case FeatureOff => "feature_off"
    case CapReached => "cap_reached"
  }

  function SubjectId(s: Subject): string {
    if s.workspaceId.Some? then s.workspaceId.value else s.actorId.GetOr("anon")
  }

  function WindowStart(nowMs: int): int {
    nowMs / WINDOW_MS * WINDOW_MS
  }

  function DedupeKey(s: Switch, r: Reason, subject: Subject, nowMs: int): string {
    Parts(SwitchKey(s), ReasonCode(r), SubjectId(subject), Decimal.OfInt(WindowStart(nowMs)))
  }

  lemma SwitchKeysDiffer(a: Switch, b: Switch)
    requires SwitchKey(a) == SwitchKey(b)
    ensures a == b
  {
    var x, y := SwitchKey(a), SwitchKey(b);
    assert |x| == |y| && x[0] == y[0] && x[8] == y[8];
  }

  lemma ReasonCodesDiffer(a: Reason, b: Reason)
    requires ReasonCode(a) == ReasonCode(b)
    ensures a == b
  {
    var x, y := ReasonCode(a), ReasonCode(b);
    assert x[0] == y[0];
  }

  lemma NoBarInSwitch(s: Switch)
    ensures '|' !in SwitchKey(s)
  {
  }

  lemma NoBarInReason(r: Reason)
    ensures '|' !in ReasonCode(r)
  {
  }

  lemma NoBars(s: Switch, r: Reason, n: int)
    ensures '|' !in SwitchKey(s) && '|' !in ReasonCode(r) && '|' !in Decimal.OfInt(n)
  {
    hide SwitchKey, ReasonCode, Decimal.OfInt;
    NoBarInSwitch(s);
    NoBarInReason(r);
    if '|' in Decimal.OfInt(n) {
      Decimal.OfIntCharacters(n, '|');
    }
  }

  function Parts(a: string, b: string, c: string, d: string): string {
    a + ("|" + (b + ("|" + (c + ("|" + d)))))
  }

  /** Four parts joined by bars are told apart although the third may hold bars. */
  lemma PartsIdentify(a1: string, b1: string, c1: string, d1: string, a2: string, b2: string, c2: string, d2: string)
    requires '|' !in a1 && '|' !in b1 && '|' !in d1
    requires '|' !in a2 && '|' !in b2 && '|' !in d2
    requires Parts(a1, b1, c1, d1) == Parts(a2, b2, c2, d2)
    ensures a1 == a2 && b1 == b2 && c1 == c2 && d1 == d2
  {
    var tail1, tail2 := c1 + ("|" + d1), c2 + ("|" + d2);
    var mid1, mid2 := b1 + ("|" + tail1), b2 + ("|" + tail2);
    assert a1 + ("|" + mid1) == a1 + "|" + mid1 && a2 + ("|" + mid2) == a2 + "|" + mid2;
    SplitAtFirst('|', a1, mid1, a2, mid2);
    assert mid1 == b1 + "|" + tail1 && mid2 == b2 + "|" + tail2;
    SplitAtFirst('|', b1, tail1, b2, tail2);
    assert tail1 == c1 + "|" + d1 && tail2 == c2 + "|" + d2;
    SplitAtLastBar(c1, d1, c2, d2);
  }

  /** The refusal is attributed to the workspace, for want of one to the actor, and else to
      nobody. */
  predicate AttributedTo(u: Subject, id: string) {
    || u.workspaceId == Some(id)
    || (u.workspaceId.None? && u.actorId == Some(id))
    || (u == Subject(None, None) && id == "anon")
  }

  /** Two refusals share an audit row exactly when switch, reason, subject and minute
      all agree, whatever characters the subject's id holds. */
  lemma KeyIdentifiesRefusal(s1: Switch, r1: Reason, u1: Subject, id1: string, t1: int,
                             s2: Switch, r2: Reason, u2: Subject, id2: string, t2: int)
    requires AttributedTo(u1, id1) && AttributedTo(u2, id2)
    ensures DedupeKey(s1, r1, u1, t1) == DedupeKey(s2, r2, u2, t2)
      <==> s1 == s2 && r1 == r2 && id1 == id2 && t1 / 60_000 == t2 / 60_000
  {
    assert SubjectId(u1) == id1 && SubjectId(u2) == id2;
    hide SwitchKey, ReasonCode, SubjectId, Decimal.OfInt, Parts;
    if DedupeKey(s1, r1, u1, t1) == DedupeKey(s2, r2, u2, t2) {
      NoBars(s1, r1, WindowStart(t1));
      NoBars(s2, r2, WindowStart(t2));
      PartsIdentify(SwitchKey(s1), ReasonCode(r1), SubjectId(u1), Decimal.OfInt(WindowStart(t1)),
                    SwitchKey(s2), ReasonCode(r2), SubjectId(u2), Decimal.OfInt(WindowStart(t2)));
      SwitchKeysDiffer(s1, s2);
      ReasonCodesDiffer(r1, r2);
      Decimal.OfIntInjective(WindowStart(t1), WindowStart(t2));
    }
  }

  /** Whoever acts for a workspace, its refusals share a key. */
  lemma ActorsShareTheirWorkspacesKey(s: Switch, r: Reason, id: string, a: Option<string>, b: Option<string>, t: int)
    ensures DedupeKey(s, r, Subject(Some(id), a), t) == DedupeKey(s, r, Subject(Some(id), b), t)
  {
    KeyIdentifiesRefusal(s, r, Subject(Some(id), a), id, t, s, r, Subject(Some(id), b), id, t);
  }

  /** A key as it is stored, for a refusal in the second minute of the epoch. */
  lemma StoredKey()
    ensures DedupeKey(BillingCheckout, FeatureOff, Subject(Some("w1"), Some("u1")), 61_000)
         == Parts("billing.checkout", "feature_off", "w1", "60000")
    ensures Parts("a", "b", "c", "d") == "a|b|c|d"
  {
    assert Decimal.OfNat(6) == "6" && Decimal.OfNat(60) == "6" + "0" && Decimal.OfNat(600) == "60" + "0";
    assert Decimal.OfNat(6000) == "600" + "0" && Decimal.OfNat(60_000) == "6000" + "0";
  }

  /** The keys of the windows lo to hi - 1. */
  function WindowKeys(s: Switch, r: Reason, u: Subject, lo: int, hi: int): (keys: set<string>)
    requires lo <= hi
    ensures |keys| <= hi - lo
    ensures forall w :: lo <= w < hi ==> DedupeKey(s, r, u, w * WINDOW_MS) in keys
    decreases hi - lo
  {
    if lo == hi then {} else WindowKeys(s, r, u, lo, hi - 1) + {DedupeKey(s, r, u, (hi - 1) * WINDOW_MS)}
  }

  /** A flood from one subject against one switch, however large, spanning D ms writes
      at most D / 60000 + 2 rows. */
  lemma FloodIsBounded(s: Switch, r: Reason, u: Subject, times: set<int>, from: int, span: nat)
    requires forall t <- times :: from <= t <= from + span
    ensures |set t <- times :: DedupeKey(s, r, u, t)| <= span / 60_000 + 2
  {
    hide DedupeKey;
    var keys := set t <- times :: DedupeKey(s, r, u, t);
    var lo, hi := from / WINDOW_MS, (from + span) / WINDOW_MS;
    var all := WindowKeys(s, r, u, lo, hi + 1);
    forall t | t in times
      ensures DedupeKey(s, r, u, t) in all
    {
      SameWindowKey(s, r, u, t);
      assert lo <= t / WINDOW_MS <= hi;
    }
    assert keys <= all;
    assert all == keys + (all - keys);
    assert hi - lo <= span / WINDOW_MS + 1;
  }

  lemma SameWindowKey(s: Switch, r: Reason, u: Subject, t: int)
    ensures DedupeKey(s, r, u, t) == DedupeKey(s, r, u, t / WINDOW_MS * WINDOW_MS)
  {
    assert WindowStart(t / WINDOW_MS * WINDOW_MS) == WindowStart(t);
  }
}
