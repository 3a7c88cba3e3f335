/** The in-process adapter: expiry is lazy, an entry staying in the map until a
    call looks it up after its time, and counters are kept as decimal text. */
module MemoryCacheStore {
  import opened Options
  import opened CachePort
  import Decimal

  datatype Stored = Str(text: string) | Bytes(bytes: Sketch)

  datatype Entry = Entry(value: Stored, expiresAt: Option<int>)

  predicate Represents(e: Entry, h: Held) {
    && e.expiresAt == h.deadline
    && match h.value
       case Counter(n) => e.value == Str(Decimal.OfInt(n))
       case Text(s) => e.value == Str(s)
       case Registers(r) => e.value == Bytes(r) && |r| == SKETCH_SIZE
  }

  /** The lazy map and the eager one agree on everything alive. */
  ghost predicate Agree(store: map<string, Entry>, model: State, now: int) {
    && (forall key :: key in store && Alive(store[key].expiresAt, now) ==> key in model)
    && (forall key :: key in model && Alive(model[key].deadline, now) ==>
          key in store && Represents(store[key], model[key]))
    && (forall key :: key in store && key in model ==> store[key].expiresAt == model[key].deadline)
  }

  class Store {
    var store: map<string, Entry>
    ghost var model: State
    ghost var clock: int

    ghost predicate Valid()
      reads this
    {
      Agree(store, model, clock)
    }

    constructor (ghost now: int)
      ensures Valid() && model == map[] && clock == now
    {
      store := map[];
      model := map[];
      clock := now;
    }

    /** The live entry of a key, evicting it first when its time has passed. */
    method Live(key: string, now: int) returns (entry: Option<Entry>)
      requires Valid() && clock <= now
      modifies this
      ensures Valid() && clock == now && model == Swept(old(model), now)
      ensures entry.Some? <==> key in model
      ensures entry.Some? ==> key in store && store[key] == entry.value && Represents(entry.value, model[key])
      ensures entry.None? ==> key !in store
    {
      model := Swept(model, now);
      clock := now;
      if key !in store {
        return None;
      }
      if store[key].expiresAt.Some? && now >= store[key].expiresAt.value {
        store := store - {key};
        return None;
      }
      return Some(store[key]);
    }

    method Get(key: string, lookAt: int, ghost stampAt: int) returns (text: Option<string>)
      requires Valid() && clock <= lookAt
      modifies this
      ensures Valid() && clock == lookAt
      ensures (model, Read(text)) == Next(old(model), Call(Op.Get(key), lookAt, stampAt))
    {
      var entry := Live(key, lookAt);
      if entry.None? {
        return None;
      }
      return if entry.value.value.Str? then Some(entry.value.value.text) else None;
    }

    /** An assignment looks nothing up; its one clock read stamps the expiry. */
    method Set(key: string, text: string, ttlSeconds: Option<int>, ghost lookAt: int, stampAt: int)
      requires Valid() && clock <= lookAt <= stampAt
      modifies this
      ensures Valid() && clock == lookAt
      ensures (model, Done) == Next(old(model), Call(Op.Set(key, text, ttlSeconds), lookAt, stampAt))
    {
      store := store[key := Entry(Str(text), Deadline(ttlSeconds, stampAt))];
      model := Swept(model, lookAt)[key := Held(Text(text), Deadline(ttlSeconds, stampAt))];
      clock := lookAt;
    }

    method Incr(key: string, ttlSeconds: Option<int>, lookAt: int, stampAt: int) returns (next: int)
      requires Valid() && clock <= lookAt <= stampAt
      modifies this
      ensures Valid() && clock == lookAt
      ensures (model, Number(next)) == Next(old(model), Call(Op.Incr(key, ttlSeconds), lookAt, stampAt))
    {
      var entry := Live(key, lookAt);
      if entry.None? {
        Decimal.ParseIntOfInt(1);
        store := store[key := Entry(Str("1"), Deadline(ttlSeconds, stampAt))];
        model := model[key := Held(Counter(1), Deadline(ttlSeconds, stampAt))];
        assert Decimal.OfInt(1) == "1";
        return 1;
      }
      if model[key].value.Counter? {
        Decimal.ParseIntOfInt(model[key].value.count);
      }
      var current := if entry.value.value.Str? then Decimal.ParseInt(entry.value.value.text) else Some(0);
      next := current.GetOr(0) + 1;
      store := store[key := Entry(Str(Decimal.OfInt(next)), entry.value.expiresAt)];
      model := model[key := Held(Counter(next), model[key].deadline)];
    }

    method Expire(key: string, seconds: int, lookAt: int, stampAt: int)
      requires Valid() && clock <= lookAt <= stampAt
      modifies this
      ensures Valid() && clock == lookAt
      ensures (model, Done) == Next(old(model), Call(Op.Expire(key, seconds), lookAt, stampAt))
    {
      var entry := Live(key, lookAt);
      if entry.Some? {
        store := store[key := Entry(entry.value.value, Some(stampAt + seconds * 1000))];
        model := model[key := Held(model[key].value, Some(stampAt + seconds * 1000))];
      }
    }

    method Del(key: string, ghost lookAt: int, ghost stampAt: int)
      requires Valid() && clock <= lookAt
      modifies this
      ensures Valid() && clock == lookAt
      ensures (model, Done) == Next(old(model), Call(Op.Del(key), lookAt, stampAt))
    {
      store := store - {key};
      model := Swept(model, lookAt) - {key};
      clock := lookAt;
    }

    method Pttl(key: string, lookAt: int, stampAt: int) returns (ms: int)
      requires Valid() && clock <= lookAt <= stampAt
      modifies this
      ensures Valid() && clock == lookAt
      ensures (model, Number(ms)) == Next(old(model), Call(Op.Pttl(key), lookAt, stampAt))
    {
      var entry := Live(key, lookAt);
      if entry.None? {
        return -2;
      }
      if entry.value.expiresAt.None? {
        return -1;
      }
      var remaining := entry.value.expiresAt.value - stampAt;
      return if remaining > 0 then remaining else 0;
    }

    method MergeSketch(key: string, sketch: Sketch, ttlSeconds: Option<int>, lookAt: int, stampAt: int)
      returns (answer: Answer)
      requires Valid() && clock <= lookAt <= stampAt
      modifies this
      ensures Valid() && clock == lookAt
      ensures (model, answer) == Next(old(model), Call(Op.MergeSketch(key, sketch, ttlSeconds), lookAt, stampAt))
    {
      var entry := Live(key, lookAt);
      var current := if entry.Some? && entry.value.value.Bytes? then entry.value.value.bytes else EmptySketch();
      if |sketch| != SKETCH_SIZE {
        return Rejected;
      }
      var merged := Merged(current, sketch);
      if entry.None? {
        store := store[key := Entry(Bytes(merged), Deadline(ttlSeconds, stampAt))];
        model := model[key := Held(Registers(merged), Deadline(ttlSeconds, stampAt))];
      } else {
        store := store[key := Entry(Bytes(merged), entry.value.expiresAt)];
        model := model[key := Held(Registers(merged), model[key].deadline)];
      }
      return Estimated(merged);
    }

    /** Any run of calls answers exactly as the eager map does, so an entry kept
        past its time is never observed. */
    method RunCalls(calls: seq<Call>) returns (answers: seq<Answer>)
      requires Valid() && InOrder(calls) && (calls != [] ==> clock <= calls[0].lookAt)
      modifies this
      ensures Valid()
      ensures (model, answers) == Run(old(model), calls)
    {
      answers := [];
      var i := 0;
      while i < |calls|
        invariant 0 <= i <= |calls| && Valid()
        invariant i < |calls| ==> clock <= calls[i].lookAt
        invariant (model, answers) == Run(old(model), calls[..i])
      {
        assert calls[..i + 1][..i] == calls[..i];
        var answer := Perform(calls[i]);
        answers := answers + [answer];
        i := i + 1;
      }
      assert calls[..i] == calls;
    }

    method Perform(call: Call) returns (answer: Answer)
      requires Valid() && clock <= call.lookAt <= call.stampAt
      modifies this
      ensures Valid() && clock <= call.stampAt
      ensures (model, answer) == Next(old(model), call)
    {
      answer := Done;
      match call.op {
        case Get(key) =>
          var text := Get(key, call.lookAt, call.stampAt);
          answer := Read(text);
        case Set(key, text, ttl) =>
          Set(key, text, ttl, call.lookAt, call.stampAt);
        case Incr(key, ttl) =>
          var n := Incr(key, ttl, call.lookAt, call.stampAt);
          answer := Number(n);
        case Expire(key, seconds) =>
          Expire(key, seconds, call.lookAt, call.stampAt);
        case Del(key) =>
          Del(key, call.lookAt, call.stampAt);
        case Pttl(key) =>
          var ms := Pttl(key, call.lookAt, call.stampAt);
          answer := Number(ms);
        case MergeSketch(key, sketch, ttl) =>
          answer := MergeSketch(key, sketch, ttl, call.lookAt, call.stampAt);
      }
    }
  }
}
