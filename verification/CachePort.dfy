/** The cache port as its documentation describes it: a map whose entries vanish
    the moment they expire. Nothing below checks an expiry except `Swept`. */
module CachePort {
  import opened Options
  import opened IntRange
  import Decimal

  /** The fixed sketch layout: one register per byte. */
  const SKETCH_SIZE := 16384

  type Register = r: int | 0 <= r < 256
  type Sketch = seq<Register>

  function EmptySketch(): Sketch {
    seq(SKETCH_SIZE, _ => 0)
  }

  /** Register-wise maximum. */
  function Merged(a: Sketch, b: Sketch): (m: Sketch)
    requires |a| == |b|
    ensures |m| == |a|
    ensures forall i :: 0 <= i < |m| ==> m[i] == if a[i] > b[i] then a[i] else b[i]
  {
    seq(|a|, i requires 0 <= i < |a| => if a[i] > b[i] then a[i] else b[i])
  }

  /** A sketch is 16384 registers; merged into an empty one it is what it was. */
  lemma EmptySketchAddsNothing(a: Sketch)
    requires |a| == 16_384
    ensures Merged(EmptySketch(), a) == a
  {
    assert forall i :: 0 <= i < |a| ==> Merged(EmptySketch(), a)[i] == a[i];
  }

  /** The merge is idempotent, commutative and associative. */
  lemma MergeIsASemilattice(a: Sketch, b: Sketch, c: Sketch)
    requires |a| == |b| == |c|
    ensures Merged(a, a) == a
    ensures Merged(a, b) == Merged(b, a)
    ensures Merged(a, Merged(b, c)) == Merged(Merged(a, b), c)
  {
    var left, right := Merged(a, Merged(b, c)), Merged(Merged(a, b), c);
    assert forall i :: 0 <= i < |a| ==> left[i] == right[i];
  }

  datatype Value = Counter(count: int) | Text(text: string) | Registers(sketch: Sketch)

  datatype Held = Held(value: Value, deadline: Option<int>)

  type State = map<string, Held>

  datatype Op =
    | Get(key: string)
    | Set(key: string, text: string, ttlSeconds: Option<int>)
    | Incr(key: string, ttlSeconds: Option<int>)
    | Expire(key: string, seconds: int)
    | Del(key: string)
    | Pttl(key: string)
    | MergeSketch(key: string, sketch: Sketch, ttlSeconds: Option<int>)

  /** What a call answers. A merge answers the sketch whose estimate is returned;
      `Rejected` is the error for a sketch of the wrong size. */
  datatype Answer =
    | Done
    | Read(text: Option<string>)
    | Number(n: int)
    | Estimated(sketch: Sketch)
    | Rejected

  /** A call reads the clock when it looks the key up and again when it stamps or
      measures an expiry. */
  datatype Call = Call(op: Op, lookAt: int, stampAt: int)

  predicate Alive(deadline: Option<int>, now: int) {
    deadline.None? || now < deadline.value
  }

  function Swept(st: State, now: int): State {
    map key | key in st && Alive(st[key].deadline, now) :: st[key]
  }

  function Deadline(ttlSeconds: Option<int>, now: int): Option<int> {
    if ttlSeconds.None? then None else Some(now + ttlSeconds.value * 1000)
  }

  /** The integer an increment starts from: a counter's own count, the leading
      integer of a text, 0 for anything else. */
  function CountOf(v: Value): int {
    match v
    case Counter(n) => n
    case Text(s) => Decimal.ParseInt(s).GetOr(0)
    case Registers(_) => 0
  }

  function Apply(st: State, op: Op, now: int): (State, Answer) {
    match op
    case Get(key) =>
      (st, Read(
         if key !in st then None
         else match st[key].value
           case Counter(n) => Some(Decimal.OfInt(n))
           case Text(s) => Some(s)
           case Registers(_) => None))
    case Set(key, text, ttl) =>
      (st[key := Held(Text(text), Deadline(ttl, now))], Done)
    case Incr(key, ttl) =>
      if key !in st then (st[key := Held(Counter(1), Deadline(ttl, now))], Number(1))
      else
        var n := CountOf(st[key].value) + 1;
        (st[key := Held(Counter(n), st[key].deadline)], Number(n))
    case Expire(key, seconds) =>
      (if key in st then st[key := Held(st[key].value, Deadline(Some(seconds), now))] else st, Done)
    case Del(key) =>
      (st - {key}, Done)
    case Pttl(key) =>
      (st, Number(
         if key !in st then -2
         else if st[key].deadline.None? then -1
         else if st[key].deadline.value - now > 0 then st[key].deadline.value - now else 0))
    case MergeSketch(key, sketch, ttl) =>
      var current := if key in st && st[key].value.Registers? then st[key].value.sketch else EmptySketch();
      if |sketch| != SKETCH_SIZE || |current| != SKETCH_SIZE then (st, Rejected)
      else
        var merged := Merged(current, sketch);
        (st[key := Held(Registers(merged), if key in st then st[key].deadline else Deadline(ttl, now))],
         Estimated(merged))
  }

  function Next(st: State, call: Call): (State, Answer) {
    Apply(Swept(st, call.lookAt), call.op, call.stampAt)
  }

  function Run(st: State, calls: seq<Call>): (State, seq<Answer>) {
    if calls == [] then (st, [])
    else
      var n := |calls| - 1;
      var (before, answers) := Run(st, calls[..n]);
      var (after, answer) := Next(before, calls[n]);
      (after, answers + [answer])
  }

  /** The clock never goes back, within a call or between calls. */
  predicate InOrder(calls: seq<Call>) {
    && (forall i :: 0 <= i < |calls| ==> calls[i].lookAt <= calls[i].stampAt)
    && (forall i :: 0 < i < |calls| ==> calls[i - 1].stampAt <= calls[i].lookAt)
  }

  /* What one call leaves for the next. */

  /** What is left of a time that ends at `end`, for a call that looks the key up and then
      measures: nothing, in the port's sense, once it has passed. */
  function Remaining(end: int, lookAt: int, stampAt: int): int {
    if lookAt >= end then -2 else Max(0, end - stampAt)
  }

  /** A set is read back until its time to live ends, and never again; without one for good. */
  lemma SetThenRead(st: State, key: string, text: string, ttl: Option<int>, setLook: int, setAt: int, look: int, at: int)
    ensures var after := Next(st, Call(Set(key, text, ttl), setLook, setAt)).0;
      && Next(after, Call(Get(key), look, at)).1
         == Read(if ttl.Some? && look >= setAt + 1000 * ttl.value then None else Some(text))
      && Next(after, Call(Pttl(key), look, at)).1
         == Number(if ttl.None? then -1 else Remaining(setAt + 1000 * ttl.value, look, at))
  {
  }

  /** An expiry counts from its own call, and an absent or expired key stays absent. */
  lemma ExpireThenRead(st: State, key: string, seconds: int, expireLook: int, expireAt: int, look: int, at: int)
    requires expireLook <= look
    ensures var after := Next(st, Call(Expire(key, seconds), expireLook, expireAt)).0;
      var there := key in st && (st[key].deadline.None? || expireLook < st[key].deadline.value);
      Next(after, Call(Pttl(key), look, at)).1
      == Number(if there then Remaining(expireAt + 1000 * seconds, look, at) else -2)
  {
  }

  /** A deleted key is absent, and counts from 1 again. */
  lemma DelThenRead(st: State, key: string, ttl: Option<int>, delLook: int, delAt: int, look: int, at: int)
    ensures var after := Next(st, Call(Del(key), delLook, delAt)).0;
      && Next(after, Call(Get(key), look, at)).1 == Read(None)
      && Next(after, Call(Pttl(key), look, at)).1 == Number(-2)
      && Next(after, Call(Incr(key, ttl), look, at)).1 == Number(1)
  {
  }

  /** A first merge stores its sketch, a second one within its time to live answers the
      union, and the key never reads as text. */
  lemma MergesAccumulate(st: State, key: string, a: Sketch, b: Sketch, ttl: Option<int>, again: Option<int>,
                         firstLook: int, firstAt: int, look: int, at: int)
    requires |a| == |b| == 16_384 && key !in Swept(st, firstLook)
    ensures var (first, answer) := Next(st, Call(MergeSketch(key, a, ttl), firstLook, firstAt));
      var gone := ttl.Some? && look >= firstAt + 1000 * ttl.value;
      && answer == Estimated(a)
      && Next(first, Call(MergeSketch(key, b, again), look, at)).1 == Estimated(if gone then b else Merged(a, b))
      && Next(first, Call(Get(key), look, at)).1 == Read(None)
      && Next(first, Call(Pttl(key), look, at)).1
         == Number(if ttl.None? then -1 else Remaining(firstAt + 1000 * ttl.value, look, at))
  {
    hide Merged, EmptySketch;
    EmptySketchAddsNothing(a);
    EmptySketchAddsNothing(b);
  }

  /** A sketch of another size is rejected, and the map is as it was. */
  lemma WrongSizeIsRejected(st: State, key: string, a: Sketch, ttl: Option<int>, look: int, at: int)
    requires |a| != 16_384
    ensures Next(st, Call(MergeSketch(key, a, ttl), look, at)) == (Swept(st, look), Rejected)
  {
  }
}
