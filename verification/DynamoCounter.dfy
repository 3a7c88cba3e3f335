/** The DynamoDB adapter's counter: one atomic update per increment, which never looks at
    the expiry it keeps. */
module DynamoCounter {
  import opened Options
  import opened DynamoSketch
  import CachePort
  import FixedWindow

  /** ADD value 1, SET expiresAt only when the item has none. */
  function Incremented(row: Row, ttlSeconds: Option<int>, nowMs: int): Option<Item> {
    if row.None? then
      Some(Item(Some(Num(1)), None,
                if ttlSeconds.Some? then Some(EpochSeconds(nowMs, ttlSeconds.value)) else None))
    else if row.value.value.Some? && !row.value.value.value.Num? then None
    else
      var n := if row.value.value.Some? then row.value.value.value.n else 0;
      Some(Item(Some(Num(n + 1)), row.value.ver,
                if ttlSeconds.Some? && row.value.expiresAt.None? then Some(EpochSeconds(nowMs, ttlSeconds.value))
                else row.value.expiresAt))
  }

  /* A run of increments on one key, before the table deletes it. */

  /** What the increments leave; the table refuses to add to what is not a number. */
  function ItemAfter(start: Row, ttl: Option<int>, hits: seq<FixedWindow.Hit>): Row {
    if hits == [] then start
    else
      var n := |hits| - 1;
      var before := ItemAfter(start, ttl, hits[..n]);
      var after := Incremented(before, ttl, hits[n].stampAt);
      if after.Some? then after else before
  }

  function CountIn(row: Row): int {
    if row.Some? && row.value.value.Some? && row.value.value.value.Num? then row.value.value.value.n else 0
  }

  predicate Uncountable(row: Row) {
    row.Some? && row.value.value.Some? && !row.value.value.value.Num?
  }

  /** From any item the count grows by every increment, an expiry that is there stays, and
      where there is none the first increment with a time to live stamps it; an item whose
      value is no number refuses them all and is left as it is. */
  lemma {:induction false} CountsEveryIncrement(start: Row, ttl: Option<int>, hits: seq<FixedWindow.Hit>)
    requires hits != []
    ensures var after := ItemAfter(start, ttl, hits);
      if Uncountable(start) then after == start && Incremented(start, ttl, hits[0].stampAt).None?
      else
        && after.Some? && after.value.value == Some(Num(CountIn(start) + |hits|))
        && after.value.ver == (if start.Some? then start.value.ver else None)
        && (if Expiry(start).Some? || ttl.None? then Expiry(after) == Expiry(start)
            else EndsIn(Expiry(after), hits[0].stampAt, ttl.value))
  {
    var n := |hits| - 1;
    if n > 0 {
      CountsEveryIncrement(start, ttl, hits[..n]);
    } else {
      assert ItemAfter(start, ttl, hits[..0]) == start;
      if ttl.Some? {
        EpochSecondsEnd(hits[0].stampAt, ttl.value);
      }
    }
  }

  /** All increments fall in the first one's window. */
  predicate OneWindow(ttl: int, hits: seq<FixedWindow.Hit>)
    requires hits != []
  {
    |hits| == 1 || hits[|hits| - 1].lookAt < hits[0].stampAt + ttl * 1000
  }

  lemma {:induction false} FirstWindow(ttl: int, hits: seq<FixedWindow.Hit>, i: nat)
    requires FixedWindow.InOrderHits(hits) && i < |hits| && OneWindow(ttl, hits)
    ensures FixedWindow.Opener(ttl, hits, i) == 0
  {
    if i > 0 {
      FixedWindow.LooksInOrder(hits, i, |hits| - 1);
      FirstWindow(ttl, hits, i - 1);
    }
  }

  /** What the i-th increment answers is what the port's would. */
  predicate AnswersAsPort(key: string, ttl: int, hits: seq<FixedWindow.Hit>, i: nat)
    requires i < |hits|
  {
    var after := ItemAfter(None, Some(ttl), hits[..i + 1]);
    && after.Some? && after.value.value.Some? && after.value.value.value.Num?
    && FixedWindow.Count(key, ttl, hits, i) == CachePort.Number(after.value.value.value.n)
  }

  lemma PortAnswerInFirstWindow(key: string, ttl: int, hits: seq<FixedWindow.Hit>, i: nat)
    requires i < |hits|
    ensures AnswersAsPort(key, ttl, hits, i) <==> FixedWindow.Opener(ttl, hits, i) == 0
  {
    hide FixedWindow.Count, ItemAfter, FixedWindow.Opener;
    CountsEveryIncrement(None, Some(ttl), hits[..i + 1]);
    FixedWindow.CountSinceOpener(key, ttl, hits, i);
  }

  lemma LaterWindow(ttl: int, hits: seq<FixedWindow.Hit>)
    requires hits != [] && !OneWindow(ttl, hits)
    ensures FixedWindow.Opener(ttl, hits, |hits| - 1) > 0
  {
  }

  /** A run of increments is answered as the port answers it if and only if the last one
      comes before the first one's window ends; a later one continues the old count where
      the port starts again at 1. */
  lemma RunMeetsPortIffOneWindow(key: string, ttl: int, hits: seq<FixedWindow.Hit>)
    requires FixedWindow.InOrderHits(hits) && hits != []
    ensures (forall i: nat :: i < |hits| ==> AnswersAsPort(key, ttl, hits, i)) <==> OneWindow(ttl, hits)
  {
    hide AnswersAsPort, OneWindow;
    if OneWindow(ttl, hits) {
      forall i: nat | i < |hits|
        ensures AnswersAsPort(key, ttl, hits, i)
      {
        FirstWindow(ttl, hits, i);
        PortAnswerInFirstWindow(key, ttl, hits, i);
      }
    } else {
      LaterWindow(ttl, hits);
      PortAnswerInFirstWindow(key, ttl, hits, |hits| - 1);
      assert !AnswersAsPort(key, ttl, hits, |hits| - 1);
    }
  }
}
