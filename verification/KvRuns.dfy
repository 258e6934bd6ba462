/** Whole runs of KV operations: the cached Cell and the bare table, driven by the same events, give the
    same answers and the same table, with entries evicted and rows collected at arbitrary points. */
module KvRuns {
  import opened Base
  import opened Ttl
  import opened KvRow
  import opened KvTable
  import opened KvNode

  datatype Op =
    | Get(key: string)
    | Set(key: string, value: string, ttl: Option<U64>, nx: bool, xx: bool)
    | Del(key: string)
    | Exists(key: string)
    | TtlOf(key: string)
    | Expire(key: string, ttl: Option<U64>)
    | Incr(key: string, delta: int, ttl: Option<U64>)
    | MGet(keys: seq<string>)
    | MSet(items: seq<Item>)
    | Evict(entry: CacheKey)
    | Gc(picked: set<string>)

  /** One operation with its one clock reading. */
  datatype Event = At(now: int, op: Op)

  datatype Answer =
    | Got(entry: Result<Option<Entry>>)
    | Flag(flag: Result<bool>)
    | Seconds(left: Option<int>)
    | Count(count: Result<int>)
    | Values(values: Result<seq<Option<string>>>)
    | Done(done: Result<()>)
    | Silent

  predicate WellFormed(ev: Event) { ev.op.Incr? ==> InI64(ev.op.delta) }

  /** The uncached table: how `kv.rs` alone takes `before` to `after` and what it answers. */
  ghost predicate PlainStep(before: Table, ev: Event, after: Table, answer: Answer) {
    match ev.op
    case Get(k) =>
      && after == Store(before, k, ReadSlot(SlotOf(before, k), ev.now))
      && answer == Got(GetAnswer(SlotOf(before, k), ev.now))
    case Set(k, v, ttl, nx, xx) =>
      if k == "" then after == before && answer == Flag(Err(InvalidRequest))
      else
        && after == Store(before, k, SetSlot(SlotOf(before, k), v, ttl, nx, xx, ev.now))
        && answer == Flag(Ok(SetWrites(SlotOf(before, k), nx, xx)))
    case Del(k) => after == Store(before, k, None) && answer == Flag(Ok(k in before))
    case Exists(k) => after == before && answer == Flag(Ok(Live(SlotOf(before, k), ev.now)))
    case TtlOf(k) => after == before && answer == Seconds(TtlAnswer(SlotOf(before, k), ev.now))
    case Expire(k, ttl) =>
      && after == Store(before, k, ExpireSlot(SlotOf(before, k), ttl, ev.now))
      && answer == Flag(Ok(Live(SlotOf(before, k), ev.now)))
    case Incr(k, d, ttl) =>
      if k == "" then after == before && answer == Count(Err(InvalidRequest))
      else
        && after == Store(before, k, IncrSlot(SlotOf(before, k), d, ttl, ev.now))
        && answer == Count(IncrAnswer(SlotOf(before, k), d, ev.now))
    case MGet(keys) => answer.Values? && MGetOutcome(before, keys, ev.now, after, answer.values)
    case MSet(items) =>
      && after == MSetRows(before, items, ev.now)
      && answer == Done(if HasEmptyKey(items) then Err(InvalidRequest) else Ok(()))
    case Evict(_) => after == before && answer == Silent
    case Gc(picked) => after == GcRows(before, picked, ev.now) && answer == Silent
  }

  ghost predicate PlainRun(tables: seq<Table>, events: seq<Event>, answers: seq<Answer>) {
    && |tables| == |events| + 1 && |answers| == |events|
    && forall i :: 0 <= i < |events| ==> PlainStep(tables[i], events[i], tables[i + 1], answers[i])
  }

  /** The uncached run is determined by the first table and the events. */
  lemma {:induction false} PlainRunDetermined(t1: seq<Table>, a1: seq<Answer>, t2: seq<Table>, a2: seq<Answer>,
                                              events: seq<Event>, n: nat)
    requires PlainRun(t1, events, a1) && PlainRun(t2, events, a2) && t1[0] == t2[0] && n <= |events|
    ensures t1[..n + 1] == t2[..n + 1] && a1[..n] == a2[..n]
  {
    if n > 0 {
      var i := n - 1;
      PlainRunDetermined(t1, a1, t2, a2, events, i);
      assert t1[i] == t1[..i + 1][i] == t2[..i + 1][i] == t2[i];
      PlainStepDetermined(t1[i], events[i], t1[i + 1], a1[i], t2[i + 1], a2[i]);
      assert t1[..n + 1] == t1[..n] + [t1[n]] && t2[..n + 1] == t2[..n] + [t2[n]];
      assert a1[..n] == a1[..i] + [a1[i]] && a2[..n] == a2[..i] + [a2[i]];
    }
  }

  lemma PlainStepDetermined(before: Table, ev: Event, after1: Table, a1: Answer, after2: Table, a2: Answer)
    requires PlainStep(before, ev, after1, a1) && PlainStep(before, ev, after2, a2)
    ensures after1 == after2 && a1 == a2
  {
    if ev.op.MGet? { MGetDetermined(before, ev.op.keys, ev.now, after1, a1.values, after2, a2.values); }
  }

  /** The one visible difference: TTL of a persistent key answers `None` from the cache, -1 from the table. */
  predicate Agrees(ev: Event, plain: Answer, served: Answer) {
    served == plain || (ev.op.TtlOf? && plain == Seconds(Some(-1)) && served == Seconds(None))
  }

  /** Clock readings never fall behind the latest GC's reading; otherwise they may move freely. */
  predicate ClockAfterGc(events: seq<Event>, floor: int) {
    && (forall j :: 0 <= j < |events| && !events[j].op.Gc? ==> floor <= events[j].now)
    && (forall i, j :: 0 <= i < j < |events| && events[i].op.Gc? && !events[j].op.Gc? ==>
        events[i].now <= events[j].now)
  }

  /** The uncached table driven by one event. */
  method StepUncached(conn: Connection, ev: Event) returns (answer: Answer)
    requires WellFormed(ev)
    modifies conn
    ensures PlainStep(old(conn.rows), ev, conn.rows, answer)
  {
    match ev.op
    case Get(k) =>
      var s := conn.ReadWithExpiry(k, ev.now);
      match s {
        case Err(e) => answer := Got(Err(e));
        case Ok(None) => answer := Got(Ok(None));
        case Ok(Some(st)) => answer := Got(Ok(Some(Entry(st.value, Remaining(st.expires, ev.now)))));
      }
    case Set(k, v, ttl, nx, xx) => var f := conn.Set(k, v, ttl, nx, xx, ev.now); answer := Flag(f);
    case Del(k) => var f := conn.Del(k); answer := Flag(Ok(f));
    case Exists(k) => var f := conn.Exists(k, ev.now); answer := Flag(Ok(f));
    case TtlOf(k) => var s := conn.TtlOf(k, ev.now); answer := Seconds(s);
    case Expire(k, ttl) => var f := conn.Expire(k, ttl, ev.now); answer := Flag(Ok(f));
    case Incr(k, d, ttl) => var n := conn.Incr(k, d, ttl, ev.now); answer := Count(n);
    case MGet(keys) => var v := conn.MGet(keys, ev.now); answer := Values(v);
    case MSet(items) => var d := conn.MSet(items, ev.now); answer := Done(d);
    case Evict(_) => answer := Silent;
    case Gc(picked) => conn.GcExpired(picked, ev.now); answer := Silent;
  }

  /** The cached Cell driven by one event; `plain` is what the bare table answers. */
  method StepCached(kv: CellKv, ev: Event) returns (answer: Answer, ghost plain: Answer)
    requires kv.Valid() && WellFormed(ev) && (!ev.op.Gc? ==> kv.floor <= ev.now)
    modifies kv.conn, kv.cache, kv`floor
    ensures kv.Valid()
    ensures PlainStep(old(kv.conn.rows), ev, kv.conn.rows, plain) && Agrees(ev, plain, answer)
    ensures kv.floor == if ev.op.Gc? && ev.now > old(kv.floor) then ev.now else old(kv.floor)
  {
    match ev.op
    case Get(k) => var e := kv.KvGet(k, ev.now); answer := Got(e); plain := answer;
    case Set(k, v, ttl, nx, xx) => var f := kv.KvSet(k, v, ttl, nx, xx, ev.now); answer := Flag(f); plain := answer;
    case Del(k) => var f := kv.KvDel(k); answer := Flag(Ok(f)); plain := answer;
    case Exists(k) => var f := kv.KvExists(k, ev.now); answer := Flag(Ok(f)); plain := answer;
    case TtlOf(k) =>
      plain := Seconds(TtlAnswer(SlotOf(kv.conn.rows, k), ev.now));
      var s := kv.KvTtl(k, ev.now);
      answer := Seconds(s);
    case Expire(k, ttl) => var f := kv.KvExpire(k, ttl, ev.now); answer := Flag(Ok(f)); plain := answer;
    case Incr(k, d, ttl) => var n := kv.KvIncr(k, d, ttl, ev.now); answer := Count(n); plain := answer;
    case MGet(keys) => var v := kv.KvMGet(keys, ev.now); answer := Values(v); plain := answer;
    case MSet(items) => var d := kv.KvMSet(items, ev.now); answer := Done(d); plain := answer;
    case Evict(k) => kv.Evict(k); answer := Silent; plain := answer;
    case Gc(picked) => kv.Gc(picked, ev.now); answer := Silent; plain := answer;
  }

  /** Cache transparency over every run: whatever is evicted and collected in between, the cached Cell
      answers as the uncached table does and leaves the same table behind. */
  method ServeCached(kv: CellKv, events: seq<Event>)
    returns (answers: seq<Answer>, ghost tables: seq<Table>, ghost plain: seq<Answer>)
    requires kv.Valid() && ClockAfterGc(events, kv.floor)
    requires forall i :: 0 <= i < |events| ==> WellFormed(events[i])
    modifies kv.conn, kv.cache, kv`floor
    ensures kv.Valid()
    ensures PlainRun(tables, events, plain) && tables[0] == old(kv.conn.rows) && tables[|events|] == kv.conn.rows
    ensures |answers| == |events| && forall i :: 0 <= i < |events| ==> Agrees(events[i], plain[i], answers[i])
  {
    answers, tables, plain := [], [kv.conn.rows], [];
    for i := 0 to |events|
      invariant kv.Valid()
      invariant |answers| == i && |plain| == i && |tables| == i + 1
      invariant tables[0] == old(kv.conn.rows) && tables[i] == kv.conn.rows
      invariant forall j :: 0 <= j < i ==> PlainStep(tables[j], events[j], tables[j + 1], plain[j])
      invariant forall j :: 0 <= j < i ==> Agrees(events[j], plain[j], answers[j])
      invariant kv.floor == old(kv.floor) || exists j :: 0 <= j < i && events[j].op.Gc? && kv.floor == events[j].now
    {
      var a, p := StepCached(kv, events[i]);
      answers, plain, tables := answers + [a], plain + [p], tables + [kv.conn.rows];
    }
  }

  /** The clock condition is tight: for every GC reading `gc` and every earlier reading `now`, for every key, value
      and expiry between them, a valid Cell collected at `gc` serves at `now` what the table does not hold. */
  method ClockStepBackIsVisible(db: nat, key: string, value: string, now: int, expires: int, gc: int)
    returns (served: Result<Option<Entry>>, uncached: Result<Option<Entry>>)
    requires now < expires <= gc
    ensures served == Ok(Some(Entry(value, Some(expires - now)))) && uncached == Ok(None)
  {
    var conn := new Connection(map[key := Row(Text(value), Some(expires), 1)]);
    var cache := new KvCache();
    cache.Put(db, key, value, Some(expires));
    var kv := new CellKv(db, conn, cache, now);
    kv.Gc({key}, gc);
    assert kv.Valid() && kv.floor == gc && conn.rows == map[];
    uncached := GetAnswer(SlotOf(conn.rows, key), now);
    served := kv.KvGet(key, now);
  }
}
