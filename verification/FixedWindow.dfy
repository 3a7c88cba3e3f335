/** The rate-limit primitive: a run of `incr` with one ttl on one key, and how many
    of its calls a limit on the returned count admits. */
module FixedWindow {
  import opened Options
  import opened CachePort
  import opened IntRange

  /** The two clock reads of one increment. */
  datatype Hit = Hit(lookAt: int, stampAt: int)

  predicate InOrderHits(hits: seq<Hit>) {
    && (forall i :: 0 <= i < |hits| ==> hits[i].lookAt <= hits[i].stampAt)
    && (forall i :: 0 < i < |hits| ==> hits[i - 1].stampAt <= hits[i].lookAt)
  }

  function Calls(key: string, ttl: int, hits: seq<Hit>): seq<Call> {
    seq(|hits|, i requires 0 <= i < |hits| => Call(Incr(key, Some(ttl)), hits[i].lookAt, hits[i].stampAt))
  }

  /** The count the i-th increment returns, on the port, from an absent key. */
  function Count(key: string, ttl: int, hits: seq<Hit>, i: nat): Answer
    requires i < |hits|
  {
    var (_, answers) := Run(map[], Calls(key, ttl, hits));
    RunLength(map[], Calls(key, ttl, hits));
    answers[i]
  }

  lemma {:induction false} RunLength(st: State, calls: seq<Call>)
    ensures |Run(st, calls).1| == |calls|
  {
    if calls != [] {
      RunLength(st, calls[..|calls| - 1]);
    }
  }

  /** The increment that opened the window the i-th one falls in: a window stays
      open until ttl seconds after the stamp of its opener. */
  function Opener(ttl: int, hits: seq<Hit>, i: nat): (o: nat)
    requires i < |hits|
    ensures o <= i
  {
    if i == 0 then 0
    else
      var o := Opener(ttl, hits, i - 1);
      if hits[i].lookAt < hits[o].stampAt + ttl * 1000 then o else i
  }

  lemma {:induction false} OpenerOpens(ttl: int, hits: seq<Hit>, i: nat)
    requires i < |hits|
    ensures Opener(ttl, hits, Opener(ttl, hits, i)) == Opener(ttl, hits, i)
    ensures forall j :: Opener(ttl, hits, i) <= j <= i ==> Opener(ttl, hits, j) == Opener(ttl, hits, i)
  {
    if i > 0 {
      OpenerOpens(ttl, hits, i - 1);
    }
  }

  /** What is stored once i+1 increments have run. */
  lemma {:induction false} StoredCount(key: string, ttl: int, hits: seq<Hit>, i: nat)
    requires i < |hits|
    ensures var o := Opener(ttl, hits, i);
      var (st, answers) := Run(map[], Calls(key, ttl, hits[..i + 1]));
      && st == map[key := Held(Counter(i - o + 1), Some(hits[o].stampAt + ttl * 1000))]
      && |answers| == i + 1
      && answers[i] == Number(i - o + 1)
  {
    var calls := Calls(key, ttl, hits[..i + 1]);
    assert calls[..i] == Calls(key, ttl, hits[..i]);
    RunLength(map[], calls);
    if i > 0 {
      StoredCount(key, ttl, hits, i - 1);
    } else {
      assert Run(map[], calls[..0]) == (map[], []);
    }
    NextStored(key, ttl, hits, i, Run(map[], calls[..i]).0);
  }

  lemma NextStored(key: string, ttl: int, hits: seq<Hit>, i: nat, st: State)
    requires i < |hits|
    requires if i == 0 then st == map[]
      else st == map[key := Held(Counter(i - Opener(ttl, hits, i - 1)),
                                 Some(hits[Opener(ttl, hits, i - 1)].stampAt + ttl * 1000))]
    ensures var o := Opener(ttl, hits, i);
      Next(st, Call(Incr(key, Some(ttl)), hits[i].lookAt, hits[i].stampAt))
      == (map[key := Held(Counter(i - o + 1), Some(hits[o].stampAt + ttl * 1000))], Number(i - o + 1))
  {
    var swept := Swept(st, hits[i].lookAt);
    if i > 0 && Opener(ttl, hits, i) < i {
      assert swept == st;
      var held := st[key];
      assert st[key := Held(Counter(held.value.count + 1), held.deadline)]
          == map[key := Held(Counter(held.value.count + 1), held.deadline)];
    } else {
      assert swept == map[];
    }
  }

  /** Every result is the number of increments since its window opened, and the
      window's deadline stays the one its opener stamped. */
  lemma CountSinceOpener(key: string, ttl: int, hits: seq<Hit>, i: nat)
    requires i < |hits|
    ensures Count(key, ttl, hits, i) == Number(i - Opener(ttl, hits, i) + 1)
    ensures Run(map[], Calls(key, ttl, hits[..i + 1])).0[key].deadline
         == Some(hits[Opener(ttl, hits, i)].stampAt + ttl * 1000)
  {
    StoredCount(key, ttl, hits, i);
    RunPrefix(Calls(key, ttl, hits), i + 1);
    assert Calls(key, ttl, hits)[..i + 1] == Calls(key, ttl, hits[..i + 1]);
  }

  lemma {:induction false} RunPrefix(calls: seq<Call>, n: nat)
    requires n <= |calls|
    ensures |Run(map[], calls).1| == |calls|
    ensures Run(map[], calls[..n]).1 == Run(map[], calls).1[..n]
    decreases |calls|
  {
    RunLength(map[], calls);
    if n < |calls| {
      var m := |calls| - 1;
      RunPrefix(calls[..m], n);
      assert calls[..m][..n] == calls[..n];
    } else {
      assert calls[..n] == calls;
    }
  }

  /* Admission. */

  predicate Admitted(key: string, ttl: int, hits: seq<Hit>, limit: int, i: nat)
    requires i < |hits|
  {
    var c := Count(key, ttl, hits, i);
    c.Number? && c.n <= limit
  }

  function AdmittedIn(key: string, ttl: int, hits: seq<Hit>, limit: int, first: nat, last: nat): set<int>
    requires first <= last < |hits|
  {
    set i | first <= i <= last && Admitted(key, ttl, hits, limit, i)
  }

  lemma {:induction false} LooksInOrder(hits: seq<Hit>, i: nat, j: nat)
    requires InOrderHits(hits) && i <= j < |hits|
    ensures hits[i].lookAt <= hits[j].lookAt
    ensures i < j ==> hits[i].stampAt <= hits[j].lookAt
    decreases j
  {
    if i < j {
      LooksInOrder(hits, i, j - 1);
    }
  }

  /** Two increments of one interval shorter than the ttl lie in at most two
      windows, and when the interval holds the opener of the first, in one. */
  lemma {:induction false} AtMostTwoWindows(ttl: int, hits: seq<Hit>, first: nat, i: nat)
    requires InOrderHits(hits) && first <= i < |hits|
    requires hits[i].lookAt - hits[first].lookAt < ttl * 1000
    ensures var o, oi := Opener(ttl, hits, first), Opener(ttl, hits, i);
      && (o == first ==> oi == o)
      && (oi != o ==> first < oi && Opener(ttl, hits, oi) == oi)
    decreases i
  {
    OpenerOpens(ttl, hits, i);
    if i > first {
      LooksInOrder(hits, i - 1, i);
      LooksInOrder(hits, first, i);
      AtMostTwoWindows(ttl, hits, first, i - 1);
    }
  }

  /** All the windows opened inside such an interval are the same one. */
  lemma SecondWindowIsOne(ttl: int, hits: seq<Hit>, first: nat, i: nat, j: nat)
    requires InOrderHits(hits) && first <= i <= j < |hits|
    requires hits[j].lookAt - hits[first].lookAt < ttl * 1000
    requires Opener(ttl, hits, i) != Opener(ttl, hits, first)
    ensures Opener(ttl, hits, j) == Opener(ttl, hits, i)
  {
    LooksInOrder(hits, i, j);
    AtMostTwoWindows(ttl, hits, first, i);
    var o := Opener(ttl, hits, i);
    LooksInOrder(hits, first, o);
    LooksInOrder(hits, o, j);
    AtMostTwoWindows(ttl, hits, o, j);
  }

  /** Admitting the counts up to `limit` admits at most 2 * limit - 1 calls in any
      interval shorter than the ttl. */
  lemma AdmissionBound(key: string, ttl: int, hits: seq<Hit>, limit: int, first: nat, last: nat)
    requires InOrderHits(hits) && limit >= 1 && first <= last < |hits|
    requires hits[last].lookAt - hits[first].lookAt < ttl * 1000
    ensures |AdmittedIn(key, ttl, hits, limit, first, last)| <= 2 * limit - 1
  {
    var o := Opener(ttl, hits, first);
    var o2 := Opener(ttl, hits, last);
    var admitted := AdmittedIn(key, ttl, hits, limit, first, last);
    AtMostTwoWindows(ttl, hits, first, last);
    forall i | i in admitted
      ensures first <= i < o + limit || (o2 != o && o2 <= i < o2 + limit)
    {
      CountSinceOpener(key, ttl, hits, i);
      LooksInOrder(hits, i, last);
      if Opener(ttl, hits, i) != o {
        SecondWindowIsOne(ttl, hits, first, i, last);
      }
    }
    var early := Range(first, if o + limit > first then o + limit else first);
    if o2 == o {
      SubsetSize(admitted, early);
    } else {
      SubsetSize(admitted, early + Range(o2, o2 + limit));
    }
  }

  /* The bound is reached. */

  /** One hit at 0, limit - 1 at the last moment of its window and limit at the
      first moment of the next. */
  function Burst(ttl: int, limit: nat): seq<Hit>
    requires limit >= 1
  {
    var w := ttl * 1000;
    seq(2 * limit, i requires 0 <= i < 2 * limit =>
      var t := if i == 0 then 0 else if i < limit then w - 1 else w;
      Hit(t, t))
  }

  lemma {:induction false} BurstOpener(ttl: int, limit: nat, i: nat)
    requires ttl >= 1 && limit >= 1 && i < 2 * limit
    ensures Opener(ttl, Burst(ttl, limit), i) == if i < limit then 0 else limit
  {
    if i > 0 {
      BurstOpener(ttl, limit, i - 1);
    }
  }

  /** For every limit and ttl some run admits 2 * limit - 1 calls within one
      millisecond, so no smaller bound holds. */
  lemma BoundIsReached(key: string, ttl: int, limit: nat)
    requires ttl >= 1 && limit >= 1
    ensures var hits := Burst(ttl, limit);
      && InOrderHits(hits)
      && hits[2 * limit - 1].lookAt - hits[1].lookAt <= 1
      && |AdmittedIn(key, ttl, hits, limit, 1, 2 * limit - 1)| == 2 * limit - 1
  {
    var hits := Burst(ttl, limit);
    forall i | 1 <= i <= 2 * limit - 1
      ensures Admitted(key, ttl, hits, limit, i)
    {
      CountSinceOpener(key, ttl, hits, i);
      BurstOpener(ttl, limit, i);
    }
    assert AdmittedIn(key, ttl, hits, limit, 1, 2 * limit - 1) == Range(1, 2 * limit);
  }
}
