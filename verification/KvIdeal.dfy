/** The KV table against an ideal store that forgets a key the moment its time is up. Expired rows may lie in the table
    for a while; this says exactly when that shows. */
module KvIdeal {
  import opened Base
  import Ttl
  import Decimal
  import opened KvRow
  import opened KvTable
  import opened KvNode
  import opened KvRuns

  /** A value and the second from which on it is gone. */
  datatype Val = Val(value: Blob, until: Option<int>)

  type Ideal = map<string, Val>

  predicate Over(until: Option<int>, now: int) { until.Some? && until.value <= now }

  /** What is left of the store at `now`. */
  function Left(s: Ideal, now: int): Ideal { map k | k in s && !Over(s[k].until, now) :: s[k] }

  function Until(ttl: Option<U64>, now: int): Option<int> { if ttl.None? then None else Some(now + ttl.value) }

  function SecondsLeft(until: Option<int>, now: int): Option<int> {
    if until.None? then None else Some(until.value - now)
  }

  // ---- the ideal operations, on what is left at the time of the call ----

  function TextOf(s: Ideal, k: string): Option<string> {
    if k in s && s[k].value.Text? then Some(s[k].value.text) else None
  }

  function IdealGet(s: Ideal, k: string, now: int): Result<Option<Entry>> {
    if k !in s then Ok(None)
    else if s[k].value.Binary? then Err(InvalidRequest)
    else Ok(Some(Entry(s[k].value.text, SecondsLeft(s[k].until, now))))
  }

  function IdealTtl(s: Ideal, k: string, now: int): Option<int> {
    if k !in s then None else if s[k].until.None? then Some(-1) else SecondsLeft(s[k].until, now)
  }

  predicate Refuses(s: Ideal, k: string, nx: bool, xx: bool) { if nx then k in s else xx && k !in s }

  function IdealCount(s: Ideal, k: string, delta: int): Result<int> {
    if k !in s then Ok(delta)
    else if s[k].value.Binary? then Err(InvalidRequest)
    else
      match Decimal.ParseI64(s[k].value.text)
      case Some(n) => if InI64(n + delta) then Ok(n + delta) else Err(InvalidRequest)
      case None => Err(InvalidRequest)
  }

  function IdealIncr(s: Ideal, k: string, delta: int, ttl: Option<U64>, now: int): Ideal {
    match IdealCount(s, k, delta)
    case Err(_) => s
    case Ok(n) =>
      s[k := Val(Text(Decimal.PrintInt(n)), if ttl.None? && k in s then s[k].until else Until(ttl, now))]
  }

  /** Items are put one after the other, up to an empty key. */
  function IdealMSet(s: Ideal, items: seq<Item>, now: int): Ideal
    decreases |items|
  {
    if items == [] || items[0].key == "" then s
    else IdealMSet(s[items[0].key := Val(Text(items[0].value), Until(items[0].ttl, now))], items[1..], now)
  }

  ghost function IdealMGet(s: Ideal, keys: seq<string>): Result<seq<Option<string>>> {
    if exists i :: 0 <= i < |keys| && keys[i] in s && s[keys[i]].value.Binary? then Err(InvalidRequest)
    else Ok(seq(|keys|, i requires 0 <= i < |keys| => TextOf(s, keys[i])))
  }

  ghost function IdealStore(s: Ideal, ev: Event): Ideal {
    match ev.op
    case Set(k, v, ttl, nx, xx) =>
      if k == "" || Refuses(s, k, nx, xx) then s else s[k := Val(Text(v), Until(ttl, ev.now))]
    case Del(k) => s - {k}
    case Expire(k, ttl) => if k in s then s[k := Val(s[k].value, Until(ttl, ev.now))] else s
    case Incr(k, d, ttl) => if k == "" then s else IdealIncr(s, k, d, ttl, ev.now)
    case MSet(items) => IdealMSet(s, items, ev.now)
    case _ => s
  }

  ghost function IdealAnswer(s: Ideal, ev: Event): Answer {
    match ev.op
    case Get(k) => Got(IdealGet(s, k, ev.now))
    case Set(k, _, _, nx, xx) => Flag(if k == "" then Err(InvalidRequest) else Ok(!Refuses(s, k, nx, xx)))
    case Del(k) => Flag(Ok(k in s))
    case Exists(k) => Flag(Ok(k in s))
    case TtlOf(k) => Seconds(IdealTtl(s, k, ev.now))
    case Expire(k, _) => Flag(Ok(k in s))
    case Incr(k, d, _) => Count(if k == "" then Err(InvalidRequest) else IdealCount(s, k, d))
    case MGet(keys) => Values(IdealMGet(s, keys))
    case MSet(items) => Done(if HasEmptyKey(items) then Err(InvalidRequest) else Ok(()))
    case Evict(_) => Silent
    case Gc(_) => Silent
  }

  // ---- the table as such a store ----

  /** The rows that are not over yet. */
  function LiveOf(rows: Table, now: int): Ideal {
    map k | k in rows && !Over(rows[k].expires, now) :: Val(rows[k].value, rows[k].expires)
  }

  /** Time passes in the table as in the ideal store. */
  lemma TimePasses(rows: Table, now: int, later: int)
    requires now <= later
    ensures LiveOf(rows, later) == Left(LiveOf(rows, now), later)
  {
  }

  /** An expired row still lies under the key. */
  predicate Lies(rows: Table, k: string, now: int) { k in rows && Over(rows[k].expires, now) }

  /** The operation looks at presence where an expired row lies. */
  predicate Stumbles(rows: Table, ev: Event) {
    match ev.op
    case Set(k, _, _, nx, xx) => k != "" && (nx || xx) && Lies(rows, k, ev.now)
    case Del(k) => Lies(rows, k, ev.now)
    case _ => false
  }

  /** No ttl reaches beyond the i64 range, which is what the maximum ttl is for. */
  predicate Short(ttl: Option<U64>, now: int) { ttl.Some? ==> InI64(now + ttl.value) }

  predicate TtlsShort(ev: Event) {
    match ev.op
    case Set(_, _, ttl, _, _) => Short(ttl, ev.now)
    case Expire(_, ttl) => Short(ttl, ev.now)
    case Incr(_, _, ttl) => Short(ttl, ev.now)
    case MSet(items) => forall i :: 0 <= i < |items| ==> Short(items[i].ttl, ev.now)
    case _ => true
  }

  /** Storing a slot is putting it, if it is live, and removing it otherwise. */
  lemma LiveOfStore(rows: Table, k: string, slot: Slot, now: int)
    ensures LiveOf(Store(rows, k, slot), now) ==
            if slot.Some? && !Over(slot.value.expires, now)
            then LiveOf(rows, now)[k := Val(slot.value.value, slot.value.expires)] else LiveOf(rows, now) - {k}
  {
    var after := Store(rows, k, slot);
    assert forall j :: j != k ==> SlotOf(after, j) == SlotOf(rows, j);
    assert forall j :: j != k && j in rows ==> j in after && after[j] == rows[j];
    assert forall j :: j != k && j in after ==> j in rows;
    assert slot == SlotOf(after, k);
  }

  lemma SweptIsLive(rows: Table, keys: seq<string>, now: int)
    ensures LiveOf(Sweep(rows, keys, now), now) == LiveOf(rows, now)
  {
  }

  lemma CollectedIsLive(rows: Table, picked: set<string>, now: int)
    ensures LiveOf(GcRows(rows, picked, now), now) == LiveOf(rows, now)
  {
  }

  lemma {:induction false} MSetFront(rows: Table, items: seq<Item>, now: int)
    requires items != [] && items[0].key != ""
    ensures var it := items[0];
            var slot := SetSlot(SlotOf(rows, it.key), it.value, it.ttl, false, false, now);
            MSetRows(rows, items, now) == MSetRows(Store(rows, it.key, slot), items[1..], now)
    decreases |items|
  {
    var n := |items| - 1;
    if n > 0 {
      MSetFront(rows, items[..n], now);
      assert items[..n][1..] == items[1..][..n - 1] && items[1..][n - 1] == items[n];
      EmptyKeyFront(items);
    } else {
      assert items[..0] == [] && items[1..] == [];
    }
  }

  lemma EmptyKeyFront(items: seq<Item>)
    requires items != [] && items[0].key != ""
    ensures HasEmptyKey(items) <==> HasEmptyKey(items[1..])
  {
    if HasEmptyKey(items) {
      var i :| 0 <= i < |items| && items[i].key == "";
      assert items[1..][i - 1].key == "";
    }
  }

  lemma LeftPut(s: Ideal, k: string, v: Val, now: int)
    ensures Left(s[k := v], now) == if Over(v.until, now) then Left(s, now) - {k} else Left(s, now)[k := v]
  {
  }

  /** A store `s` and a table agree on what is left at `now`. */
  predicate Same(s: Ideal, rows: Table, now: int) { Left(s, now) == LiveOf(rows, now) }

  /** Putting a value and storing its row. */
  lemma PutSame(s: Ideal, rows: Table, k: string, row: Row, now: int)
    requires Same(s, rows, now)
    ensures Same(s[k := Val(row.value, row.expires)], Store(rows, k, Some(row)), now)
  {
    LeftPut(s, k, Val(row.value, row.expires), now);
    LiveOfStore(rows, k, Some(row), now);
  }

  lemma UntilIsExpiry(ttl: Option<U64>, now: int)
    requires Short(ttl, now)
    ensures Ttl.ExpiresAt(ttl, now) == Until(ttl, now)
  {
  }

  lemma {:induction false} MSetSame(s: Ideal, rows: Table, items: seq<Item>, now: int)
    requires Same(s, rows, now) && forall i :: 0 <= i < |items| ==> Short(items[i].ttl, now)
    ensures Same(IdealMSet(s, items, now), MSetRows(rows, items, now), now)
    decreases |items|
  {
    if items != [] {
      var it := items[0];
      if it.key == "" {
        assert items[..0] == [];
        MSetStopsAtEmptyKey(rows, items, now, 0);
      } else {
        var slot := SetSlot(SlotOf(rows, it.key), it.value, it.ttl, false, false, now);
        UntilIsExpiry(it.ttl, now);
        PutSame(s, rows, it.key, slot.value, now);
        MSetFront(rows, items, now);
        MSetSame(s[it.key := Val(Text(it.value), Until(it.ttl, now))], Store(rows, it.key, slot), items[1..], now);
      }
    }
  }

  lemma LeftAgain(rows: Table, now: int)
    ensures Same(LiveOf(rows, now), rows, now)
  {
  }

  lemma LiveAt(rows: Table, k: string, now: int)
    ensures k in LiveOf(rows, now) <==> Live(SlotOf(rows, k), now)
  {
  }

  /** A row is stored under the key, or nothing changes. */
  lemma PutOrKept(s: Ideal, next: Ideal, rows: Table, k: string, slot: Slot, now: int)
    requires Same(s, rows, now)
    requires (slot == SlotOf(rows, k) && next == s)
             || (slot.Some? && next == s[k := Val(slot.value.value, slot.value.expires)])
    ensures Same(next, Store(rows, k, slot), now)
  {
    if slot == SlotOf(rows, k) && next == s {
      assert Store(rows, k, slot) == rows;
    } else {
      PutSame(s, rows, k, slot.value, now);
    }
  }

  lemma SetSame(rows: Table, k: string, v: string, ttl: Option<U64>, nx: bool, xx: bool, now: int)
    requires Short(ttl, now) && k != "" && !((nx || xx) && Lies(rows, k, now))
    ensures var ev := At(now, Set(k, v, ttl, nx, xx));
            Same(IdealStore(LiveOf(rows, now), ev), Store(rows, k, SetSlot(SlotOf(rows, k), v, ttl, nx, xx, now)), now)
  {
    LeftAgain(rows, now);
    LiveAt(rows, k, now);
    UntilIsExpiry(ttl, now);
    PutOrKept(LiveOf(rows, now), IdealStore(LiveOf(rows, now), At(now, Set(k, v, ttl, nx, xx))), rows, k,
              SetSlot(SlotOf(rows, k), v, ttl, nx, xx, now), now);
  }

  lemma ExpireSame(rows: Table, k: string, ttl: Option<U64>, now: int)
    requires Short(ttl, now)
    ensures Same(IdealStore(LiveOf(rows, now), At(now, Expire(k, ttl))),
                 Store(rows, k, ExpireSlot(SlotOf(rows, k), ttl, now)), now)
  {
    LeftAgain(rows, now);
    LiveAt(rows, k, now);
    UntilIsExpiry(ttl, now);
    PutOrKept(LiveOf(rows, now), IdealStore(LiveOf(rows, now), At(now, Expire(k, ttl))), rows, k,
              ExpireSlot(SlotOf(rows, k), ttl, now), now);
  }

  lemma IncrSame(rows: Table, k: string, d: int, ttl: Option<U64>, now: int)
    requires Short(ttl, now)
    ensures Same(IdealIncr(LiveOf(rows, now), k, d, ttl, now),
                 Store(rows, k, IncrSlot(SlotOf(rows, k), d, ttl, now)), now)
  {
    LeftAgain(rows, now);
    LiveAt(rows, k, now);
    UntilIsExpiry(ttl, now);
    PutOrKept(LiveOf(rows, now), IdealIncr(LiveOf(rows, now), k, d, ttl, now), rows, k,
              IncrSlot(SlotOf(rows, k), d, ttl, now), now);
  }

  lemma DelSame(rows: Table, k: string, now: int)
    ensures Same(LiveOf(rows, now) - {k}, Store(rows, k, None), now)
  {
    LiveOfStore(rows, k, None, now);
    LeftAgain(Store(rows, k, None), now);
  }

  lemma StateSame(before: Table, ev: Event, after: Table, answer: Answer)
    requires PlainStep(before, ev, after, answer) && TtlsShort(ev) && (Stumbles(before, ev) ==> ev.op.Del?)
    ensures Same(IdealStore(LiveOf(before, ev.now), ev), after, ev.now)
  {
    LeftAgain(before, ev.now);
    match ev.op {
      case Get(k) =>
        LiveAt(before, k, ev.now);
        LiveOfStore(before, k, SlotOf(after, k), ev.now);
      case MGet(keys) => MGetSame(before, keys, ev.now, after, answer.values);
      case MSet(items) => MSetSame(LiveOf(before, ev.now), before, items, ev.now);
      case Gc(picked) => CollectedIsLive(before, picked, ev.now);
      case Exists(_) =>
      case TtlOf(_) =>
      case Evict(_) =>
      case Set(k, v, ttl, nx, xx) => if k != "" { SetSame(before, k, v, ttl, nx, xx, ev.now); }
      case Del(k) => DelSame(before, k, ev.now);
      case Expire(k, ttl) => ExpireSame(before, k, ttl, ev.now);
      case Incr(k, d, ttl) => if k != "" { IncrSame(before, k, d, ttl, ev.now); }
    }
  }

  lemma MGetSame(before: Table, keys: seq<string>, now: int, after: Table, r: Result<seq<Option<string>>>)
    requires MGetOutcome(before, keys, now, after, r)
    ensures LiveOf(after, now) == LiveOf(before, now)
  {
    match r
    case Ok(_) => SweptIsLive(before, keys, now);
    case Err(_) =>
      var stop: nat :| StopsAt(before, keys, now, stop) && after == Sweep(before, keys[..stop], now);
      SweptIsLive(before, keys[..stop], now);
  }

  lemma MGetAnswers(before: Table, keys: seq<string>, now: int, after: Table, r: Result<seq<Option<string>>>)
    requires MGetOutcome(before, keys, now, after, r)
    ensures r == IdealMGet(LiveOf(before, now), keys)
  {
    var s := LiveOf(before, now);
    forall i | 0 <= i < |keys|
      ensures Unreadable(before, keys[i], now) <==> keys[i] in s && s[keys[i]].value.Binary?
      ensures LiveText(before, keys[i], now) == TextOf(s, keys[i])
    {
      LiveAt(before, keys[i], now);
    }
    match r
    case Ok(values) =>
      assert IdealMGet(s, keys).Ok? && values == IdealMGet(s, keys).value;
    case Err(_) =>
      var stop: nat :| StopsAt(before, keys, now, stop) && after == Sweep(before, keys[..stop], now);
      assert keys[stop] in s && s[keys[stop]].value.Binary?;
  }

  lemma AnswerSame(before: Table, ev: Event, after: Table, answer: Answer)
    requires PlainStep(before, ev, after, answer)
    ensures answer == IdealAnswer(LiveOf(before, ev.now), ev) <==> !Stumbles(before, ev)
  {
    match ev.op {
      case MGet(keys) => MGetAnswers(before, keys, ev.now, after, answer.values);
      case MSet(_) =>
      case Evict(_) =>
      case Gc(_) =>
      case _ => LiveAt(before, ev.op.key, ev.now);
    }
  }

  /** One operation of the table answers as the ideal store does exactly unless it is a DEL, a SET NX or a SET XX that
      meets an expired row; and except after such a SET what is left is the same. */
  lemma StepIsIdeal(before: Table, ev: Event, after: Table, answer: Answer)
    requires PlainStep(before, ev, after, answer) && TtlsShort(ev)
    ensures answer == IdealAnswer(LiveOf(before, ev.now), ev) <==> !Stumbles(before, ev)
    ensures !Stumbles(before, ev) || ev.op.Del? ==>
              LiveOf(after, ev.now) == Left(IdealStore(LiveOf(before, ev.now), ev), ev.now)
  {
    AnswerSame(before, ev, after, answer);
    if Stumbles(before, ev) ==> ev.op.Del? { StateSame(before, ev, after, answer); }
  }

  // ---- whole runs ----

  predicate ForwardClock(events: seq<Event>) { forall i, j :: 0 <= i < j < |events| ==> events[i].now <= events[j].now }

  /** The ideal store after the first `n` events. */
  ghost function IdealAfter(s: Ideal, events: seq<Event>, n: nat): Ideal
    requires n <= |events|
  {
    if n == 0 then s
    else IdealStore(Left(IdealAfter(s, events, n - 1), events[n - 1].now), events[n - 1])
  }

  /** What the ideal store answers to event `i`. */
  ghost function IdealAnswerAt(s: Ideal, events: seq<Event>, i: nat): Answer
    requires i < |events|
  {
    IdealAnswer(Left(IdealAfter(s, events, i), events[i].now), events[i])
  }

  lemma LeftLater(s: Ideal, now: int, later: int)
    requires now <= later
    ensures Left(Left(s, now), later) == Left(s, later)
  {
  }

  /** Agreement at one time is agreement at every later one. */
  lemma SameLater(s: Ideal, rows: Table, now: int, later: int)
    requires Same(s, rows, now) && now <= later
    ensures Same(s, rows, later)
  {
    TimePasses(rows, now, later);
    LeftLater(s, now, later);
  }

  /** What the ideal store starts with: the rows as they are, expiries and all. */
  function Loaded(rows: Table): Ideal { map k | k in rows :: Val(rows[k].value, rows[k].expires) }

  lemma LoadedSame(rows: Table, now: int)
    ensures Same(Loaded(rows), rows, now)
  {
  }

  /** No SET NX or SET XX before event `n` meets an expired row. */
  ghost predicate NoSetStumbles(tables: seq<Table>, events: seq<Event>, n: nat)
    requires n <= |events| < |tables|
  {
    forall i :: 0 <= i < n && Stumbles(tables[i], events[i]) ==> events[i].op.Del?
  }

  lemma {:induction false} TablesAreIdeal(tables: seq<Table>, events: seq<Event>, answers: seq<Answer>, n: nat,
                                          now: int)
    requires PlainRun(tables, events, answers) && ForwardClock(events) && n <= |events|
    requires forall i :: 0 <= i < |events| ==> TtlsShort(events[i])
    requires NoSetStumbles(tables, events, n) && (n > 0 ==> events[n - 1].now <= now)
    ensures Same(IdealAfter(Loaded(tables[0]), events, n), tables[n], now)
    decreases n
  {
    if n == 0 {
      LoadedSame(tables[0], now);
    } else {
      var i := n - 1;
      var ev := events[i];
      TablesAreIdeal(tables, events, answers, i, ev.now);
      StepIsIdeal(tables[i], ev, tables[n], answers[i]);
      SameLater(IdealAfter(Loaded(tables[0]), events, n), tables[n], ev.now, now);
    }
  }

  /** Over every run of the table with a clock that does not step back: as long as no SET NX or SET XX has met an
      expired row, every answer is the ideal store's, except exactly that of a DEL that meets one and of the first such
      SET. */
  lemma RunIsIdeal(tables: seq<Table>, events: seq<Event>, answers: seq<Answer>, i: nat)
    requires PlainRun(tables, events, answers) && ForwardClock(events) && i < |events|
    requires forall j :: 0 <= j < |events| ==> TtlsShort(events[j])
    requires NoSetStumbles(tables, events, i)
    ensures answers[i] == IdealAnswerAt(Loaded(tables[0]), events, i) <==> !Stumbles(tables[i], events[i])
  {
    TablesAreIdeal(tables, events, answers, i, events[i].now);
    StepIsIdeal(tables[i], events[i], tables[i + 1], answers[i]);
  }
}
