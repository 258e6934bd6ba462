/** What each KV operation does to the row under one key of `__sys_kv` (crates/data-node/src/kv.rs),
    as functions of the row found there and of one clock reading. A slot is the row, or its absence. */
module KvRow {
  import opened Base
  import opened Ttl
  import opened Decimal

  /** Stored bytes: valid UTF-8, or not. Every writer stores text. */
  datatype Blob = Text(text: string) | Binary(bytes: seq<nat>)

  datatype Row = Row(value: Blob, expires: Option<int>, version: int)

  type Slot = Option<Row>

  /** What a successful read hands to the cache: the text and the absolute expiry. */
  datatype Stored = Stored(value: string, expires: Option<int>)

  predicate Live(slot: Slot, now: int) {
    slot.Some? && !IsExpired(slot.value.expires, now)
  }

  // ---- read_with_expiry: an expired row reads as absent and is deleted on the way ----

  function ReadAnswer(slot: Slot, now: int): Result<Option<Stored>> {
    if !Live(slot, now) then Ok(None)
    else match slot.value.value
      case Text(t) => Ok(Some(Stored(t, slot.value.expires)))
      case Binary(_) => Err(InvalidRequest)
  }

  function ReadSlot(slot: Slot, now: int): Slot {
    if Live(slot, now) then slot else None
  }

  // ---- set: NX and XX look at the presence of the row, not at its liveness ----

  predicate SetWrites(slot: Slot, nx: bool, xx: bool) {
    if nx then slot.None? else if xx then slot.Some? else true
  }

  function SetSlot(slot: Slot, value: string, ttl: Option<U64>, nx: bool, xx: bool, now: int): Slot {
    if SetWrites(slot, nx, xx) then
      Some(Row(Text(value), ExpiresAt(ttl, now), if slot.Some? then slot.value.version + 1 else 1))
    else slot
  }

  // ---- expire / persist ----

  function ExpireSlot(slot: Slot, ttl: Option<U64>, now: int): Slot {
    if Live(slot, now) then
      Some(slot.value.(expires := ExpiresAt(ttl, now), version := slot.value.version + 1))
    else slot
  }

  // ---- ttl ----

  function TtlAnswer(slot: Slot, now: int): Option<int> {
    if slot.Some? && slot.value.expires.None? then Some(-1)
    else if Live(slot, now) then Remaining(slot.value.expires, now)
    else None
  }

  // ---- incr: the counter lives in the row as decimal text ----

  function IncrAnswer(slot: Slot, delta: int, now: int): Result<int> {
    if !Live(slot, now) then Ok(delta)
    else match slot.value.value
      case Binary(_) => Err(InvalidRequest)
      case Text(t) =>
        match ParseI64(t)
        case None => Err(InvalidRequest)
        case Some(n) => if InI64(n + delta) then Ok(n + delta) else Err(InvalidRequest)
  }

  function IncrSlot(slot: Slot, delta: int, ttl: Option<U64>, now: int): Slot {
    match IncrAnswer(slot, delta, now)
    case Err(_) => slot
    case Ok(n) =>
      var expires := if ttl.Some? || !Live(slot, now) then ExpiresAt(ttl, now) else slot.value.expires;
      Some(Row(Text(PrintInt(n)), expires, if Live(slot, now) then slot.value.version + 1 else 1))
  }

  // ---- reading back what was written ----

  /** A value that was written reads back until its expiry is reached, and is absent from then on. */
  lemma SetThenRead(slot: Slot, value: string, ttl: Option<U64>, nx: bool, xx: bool, now: int, later: int)
    requires SetWrites(slot, nx, xx)
    ensures var after := SetSlot(slot, value, ttl, nx, xx, now);
            && after.Some? && after.value.version == (if slot.Some? then slot.value.version else 0) + 1
            && ReadAnswer(after, later) ==
               if IsExpired(ExpiresAt(ttl, now), later) then Ok(None) else Ok(Some(Stored(value, ExpiresAt(ttl, now))))
  {
  }

  /** EXPIRE gives a live key a new expiry and PERSIST takes it away; the value stays, and a key that is not live is
      left as it is. From then on reads and TTL follow the new expiry. */
  lemma ExpireThenRead(slot: Slot, ttl: Option<U64>, now: int, later: int)
    requires ttl.Some? ==> InI64(now + ttl.value)
    ensures !Live(slot, now) ==> ExpireSlot(slot, ttl, now) == slot
    ensures Live(slot, now) ==>
              var after, over := ExpireSlot(slot, ttl, now), ttl.Some? && ttl.value <= later - now;
              && after.Some? && after.value.version == slot.value.version + 1
              && ReadAnswer(after, later) ==
                 (if over then Ok(None)
                  else match slot.value.value
                    case Text(t) => Ok(Some(Stored(t, if ttl.Some? then Some(now + ttl.value) else None)))
                    case Binary(_) => Err(InvalidRequest))
              && TtlAnswer(after, later) ==
                 (if over then None else if ttl.None? then Some(-1) else Some(ttl.value - (later - now)))
  {
    LivesForItsTtl(ttl, now, later);
  }

  /** TTL and GET agree: no TTL exactly when there is nothing to read, -1 exactly for a key that never expires, and
      otherwise the seconds, at least one, until the expiry that GET reports. */
  lemma TtlAgreesWithRead(slot: Slot, now: int)
    ensures TtlAnswer(slot, now).None? <==> ReadAnswer(slot, now) == Ok(None)
    ensures TtlAnswer(slot, now) == Some(-1) <==> slot.Some? && slot.value.expires.None?
    ensures TtlAnswer(slot, now).Some? && slot.value.expires.Some? ==>
              1 <= TtlAnswer(slot, now).value == slot.value.expires.value - now
  {
  }

  /** A successful INCR reads back as its answer. It takes the expiry of the given ttl, else keeps that of a live
      key, else has none. */
  lemma IncrThenRead(slot: Slot, delta: int, ttl: Option<U64>, now: int, later: int)
    requires InI64(delta) && IncrAnswer(slot, delta, now).Ok?
    ensures var n, after := IncrAnswer(slot, delta, now).value, IncrSlot(slot, delta, ttl, now);
            && after.Some? && after.value.value.Text? && ParseI64(after.value.value.text) == Some(n)
            && after.value.version == (if Live(slot, now) then slot.value.version else 0) + 1
            && (ttl.Some? ==> after.value.expires == ExpiresAt(ttl, now))
            && (ttl.None? && Live(slot, now) ==> after.value.expires == slot.value.expires)
            && (ttl.None? && !Live(slot, now) ==> after.value.expires == None)
            && ReadAnswer(after, later) ==
               if IsExpired(after.value.expires, later) then Ok(None)
               else Ok(Some(Stored(PrintInt(n), after.value.expires)))
  {
    IntRoundTrip(IncrAnswer(slot, delta, now).value);
  }

  /** A read leaves nothing expired behind and changes no later answer; after it NX and XX agree with GET. */
  lemma ReadClears(slot: Slot, now: int, later: int)
    requires now <= later
    ensures ReadAnswer(ReadSlot(slot, now), later) == ReadAnswer(slot, later)
    ensures SetWrites(ReadSlot(slot, now), true, false) <==> !Live(slot, now)
    ensures SetWrites(ReadSlot(slot, now), false, true) <==> Live(slot, now)
  {
  }

  /** A SET without a condition always writes, and one that does not write changes nothing. `SET NX` decides by
      presence. It agrees with what a GET would report exactly when no expired row is still lying in the table; the
      same holds of `SET XX`. */
  lemma ConditionalSetAgreesWithLiveness(slot: Slot, now: int)
    ensures SetWrites(slot, false, false)
    ensures forall v, ttl, nx, xx :: !SetWrites(slot, nx, xx) ==> SetSlot(slot, v, ttl, nx, xx, now) == slot
    ensures (SetWrites(slot, true, false) <==> !Live(slot, now)) <==>
              !(slot.Some? && IsExpired(slot.value.expires, now))
    ensures (SetWrites(slot, false, true) <==> Live(slot, now)) <==> !(slot.Some? && IsExpired(slot.value.expires, now))
  {
  }

  // ---- INCR through text refines an integer counter ----

  /** The reference counter: an integer with an expiry, no text anywhere. */
  datatype Counter = Absent | Number(value: int, expires: Option<int>) | NotANumber(expires: Option<int>)

  datatype IncrCall = IncrCall(delta: int, ttl: Option<U64>, now: int)

  function Counting(slot: Slot): Counter {
    if slot.None? then Absent
    else if slot.value.value.Text? && ParseI64(slot.value.value.text).Some? then
      Number(ParseI64(slot.value.value.text).value, slot.value.expires)
    else NotANumber(slot.value.expires)
  }

  predicate Gone(c: Counter, now: int) {
    c.Absent? || IsExpired(c.expires, now)
  }

  function CounterAnswer(c: Counter, call: IncrCall): Result<int> {
    if Gone(c, call.now) then Ok(call.delta)
    else if c.Number? && InI64(c.value + call.delta) then Ok(c.value + call.delta)
    else Err(InvalidRequest)
  }

  function CounterNext(c: Counter, call: IncrCall): Counter {
    if Gone(c, call.now) then Number(call.delta, ExpiresAt(call.ttl, call.now))
    else if c.Number? && InI64(c.value + call.delta) then
      Number(c.value + call.delta, if call.ttl.Some? then ExpiresAt(call.ttl, call.now) else c.expires)
    else c
  }

  function CounterAnswers(c: Counter, calls: seq<IncrCall>): seq<Result<int>>
    decreases |calls|
  {
    if calls == [] then [] else [CounterAnswer(c, calls[0])] + CounterAnswers(CounterNext(c, calls[0]), calls[1..])
  }

  function IncrAnswers(slot: Slot, calls: seq<IncrCall>): seq<Result<int>>
    decreases |calls|
  {
    if calls == [] then []
    else [IncrAnswer(slot, calls[0].delta, calls[0].now)]
         + IncrAnswers(IncrSlot(slot, calls[0].delta, calls[0].ttl, calls[0].now), calls[1..])
  }

  predicate I64Deltas(calls: seq<IncrCall>) { forall i :: 0 <= i < |calls| ==> InI64(calls[i].delta) }

  lemma CountingPrinted(n: int, expires: Option<int>, version: int)
    requires InI64(n)
    ensures Counting(Some(Row(Text(PrintInt(n)), expires, version))) == Number(n, expires)
  {
    IntRoundTrip(n);
  }

  lemma IncrStep(slot: Slot, call: IncrCall)
    requires InI64(call.delta)
    ensures IncrAnswer(slot, call.delta, call.now) == CounterAnswer(Counting(slot), call)
    ensures Counting(IncrSlot(slot, call.delta, call.ttl, call.now)) == CounterNext(Counting(slot), call)
  {
    match IncrAnswer(slot, call.delta, call.now)
    case Ok(n) =>
      var after := IncrSlot(slot, call.delta, call.ttl, call.now);
      CountingPrinted(n, after.value.expires, after.value.version);
    case Err(_) =>
  }

  /** Any run of INCRs, from any row whatsoever, answers as the integer counter does: sums accumulate
      across the print/parse round trip, an expired counter restarts at the delta, a TTL is kept unless
      one is given, and overflow or garbage fails and changes nothing. */
  lemma {:induction false} IncrRunRefinesCounter(slot: Slot, calls: seq<IncrCall>)
    requires I64Deltas(calls)
    ensures IncrAnswers(slot, calls) == CounterAnswers(Counting(slot), calls)
    decreases |calls|
  {
    if calls != [] {
      IncrStep(slot, calls[0]);
      IncrRunRefinesCounter(IncrSlot(slot, calls[0].delta, calls[0].ttl, calls[0].now), calls[1..]);
    }
  }

  /** The start value plus the deltas so far, call by call. */
  function RunningSums(start: int, calls: seq<IncrCall>): seq<int>
    decreases |calls|
  {
    if calls == [] then []
    else [start + calls[0].delta] + RunningSums(start + calls[0].delta, calls[1..])
  }

  predicate AllI64(sums: seq<int>) { forall i :: 0 <= i < |sums| ==> InI64(sums[i]) }

  predicate AllAnswered(answers: seq<Result<int>>, sums: seq<int>) {
    |answers| == |sums| && forall i :: 0 <= i < |sums| ==> answers[i] == Ok(sums[i])
  }

  lemma AllI64Cons(x: int, xs: seq<int>)
    ensures AllI64([x] + xs) <==> InI64(x) && AllI64(xs)
  {
    var all := [x] + xs;
    assert all[0] == x && forall i :: 0 <= i < |xs| ==> all[i + 1] == xs[i];
  }

  lemma AllAnsweredCons(a: Result<int>, rest: seq<Result<int>>, x: int, xs: seq<int>)
    ensures AllAnswered([a] + rest, [x] + xs) <==> a == Ok(x) && AllAnswered(rest, xs)
  {
    var answers, sums := [a] + rest, [x] + xs;
    assert answers[0] == a && forall i :: 0 <= i < |rest| ==> answers[i + 1] == rest[i];
    assert sums[0] == x && forall i :: 0 <= i < |xs| ==> sums[i + 1] == xs[i];
  }

  /** The key does not expire before any of the calls; a call with a TTL moves the expiry. */
  predicate StaysLive(expires: Option<int>, calls: seq<IncrCall>)
    decreases |calls|
  {
    calls == [] ||
    (!IsExpired(expires, calls[0].now)
     && StaysLive(if calls[0].ttl.Some? then ExpiresAt(calls[0].ttl, calls[0].now) else expires, calls[1..]))
  }

  lemma {:induction false} CounterAnswersRunningSums(start: int, expires: Option<int>, calls: seq<IncrCall>)
    requires StaysLive(expires, calls)
    ensures AllI64(RunningSums(start, calls)) <==>
            AllAnswered(CounterAnswers(Number(start, expires), calls), RunningSums(start, calls))
    decreases |calls|
  {
    if calls != [] {
      var c, x := Number(start, expires), start + calls[0].delta;
      var next := CounterNext(c, calls[0]);
      AllI64Cons(x, RunningSums(x, calls[1..]));
      AllAnsweredCons(CounterAnswer(c, calls[0]), CounterAnswers(next, calls[1..]), x, RunningSums(x, calls[1..]));
      if InI64(x) { CounterAnswersRunningSums(x, next.expires, calls[1..]); }
    }
  }

  /** On a live key whose text is an integer, a run of INCRs, with and without TTLs, succeeds throughout exactly when
      every running sum is an i64, and then it answers those sums. */
  lemma IncrAnswersRunningSums(slot: Slot, start: int, calls: seq<IncrCall>)
    requires slot.Some? && slot.value.value.Text? && ParseI64(slot.value.value.text) == Some(start)
    requires I64Deltas(calls) && StaysLive(slot.value.expires, calls)
    ensures AllI64(RunningSums(start, calls)) <==> AllAnswered(IncrAnswers(slot, calls), RunningSums(start, calls))
  {
    IncrRunRefinesCounter(slot, calls);
    CounterAnswersRunningSums(start, slot.value.expires, calls);
  }
}
