/** What it shows that a SET reads the clock twice (crates/data-node/src/lib.rs): its cache entry may outlive its row,
    and exactly then a DEL can miss a value that a GET still returns. */
module KvDrift {
  import opened Base
  import opened Ttl
  import opened KvRow
  import opened KvTable
  import opened KvNode
  import opened KvConcurrent

  // ---- what drift can show ----

  /** A DEL by `t` finds no row and changes nothing, and a GET by `t` right after it returns the value. */
  predicate DelMisses(s: State, k: string, t: nat)
    requires k in s.cache
  {
    && Next(s, StoreWrite(t, k, DelOp)) == s
    && Next(Next(s, BeginGet(t, k)), Probe(t)).replies
         == s.replies + [Read(t, k, |Hist(s, k)|, |Hist(s, k)|, Found(s.cache[k].value), s.clock)]
  }

  predicate StoredExpiryPassed(s: State, k: string) {
    var h := Hist(s, k);
    h != [] && h[|h| - 1].slot.Some? && IsExpired(h[|h| - 1].slot.value.expires, s.clock)
  }

  /** The last write was a SET with a TTL between whose two clock readings time passed; the expiry it stored has
      passed, the one it cached has not. */
  predicate InDriftWindow(s: State, k: string)
    requires k in s.cache
  {
    var h := Hist(s, k);
    && StoredExpiryPassed(s, k) && !IsExpired(s.cache[k].expires, s.clock)
    && h[|h| - 1].ttl.Some? && h[|h| - 1].wroteAt < h[|h| - 1].cachedAt
    && h[|h| - 1].slot.value.expires == ExpiresAt(h[|h| - 1].ttl, h[|h| - 1].wroteAt)
    && s.cache[k].expires == ExpiresAt(h[|h| - 1].ttl, h[|h| - 1].cachedAt)
  }

  lemma LiveEntryAnswers(s: State, k: string, t: nat)
    requires k in s.cache && !IsExpired(s.cache[k].expires, s.clock) && PcOf(s, t).Idle?
    ensures Next(Next(s, BeginGet(t, k)), Probe(t)).replies
         == s.replies + [Read(t, k, |Hist(s, k)|, |Hist(s, k)|, Found(s.cache[k].value), s.clock)]
  {
    var m := Goto(s, t, Reading(k, s.clock, |Hist(s, k)|));
    assert Next(s, BeginGet(t, k)) == m;
    assert Next(m, Probe(t)) == DoProbe(m, t);
  }

  lemma DelChangesNothingExactly(s: State, k: string, t: nat)
    requires s.holder.None? && PcOf(s, t).Idle?
    ensures Next(s, StoreWrite(t, k, DelOp)) == s <==> k !in s.rows
  {
    assert Next(s, StoreWrite(t, k, DelOp)) == DoStoreWrite(s, t, k, DelOp);
  }

  lemma GcMayTakeRow(s: State, k: string, picked: set<string>)
    requires Inv(s) && s.holder.None? && k in s.cache
    ensures k !in Next(s, Gc(picked)).rows ==> StoredExpiryPassed(s, k)
    ensures StoredExpiryPassed(s, k) && k in picked ==> k !in Next(s, Gc(picked)).rows
  {
    assert KeyOk(s, k);
  }

  /** In every reachable state with the mutex free and `k` live in the cache: some GC makes a DEL miss the value
      that a GET still returns, exactly when the expiry the last write stored has passed, and exactly inside the
      drift window of a SET. Elsewhere a DEL or EXPIRE that finds no row and a GET agree. */
  lemma DelMissesExactlyInDriftWindow(rows: Table, clock: int, events: seq<Event>, k: string, t: nat)
    requires var s := Run(Init(rows, clock), events);
             s.holder.None? && k in s.cache && !IsExpired(s.cache[k].expires, s.clock) && PcOf(s, t).Idle?
    ensures var s := Run(Init(rows, clock), events);
            (exists picked :: DelMisses(Next(s, Gc(picked)), k, t)) <==> StoredExpiryPassed(s, k)
    ensures var s := Run(Init(rows, clock), events); StoredExpiryPassed(s, k) <==> InDriftWindow(s, k)
  {
    InitOk(rows, clock);
    RunOk(Init(rows, clock), events);
    DelMissesIff(Run(Init(rows, clock), events), k, t);
    PassedIsDrift(Run(Init(rows, clock), events), k);
  }

  lemma PassedIsDrift(s: State, k: string)
    requires Inv(s) && k in s.cache && !IsExpired(s.cache[k].expires, s.clock)
    ensures StoredExpiryPassed(s, k) <==> InDriftWindow(s, k)
  {
    assert KeyOk(s, k);
  }

  lemma DelMissesIff(s: State, k: string, t: nat)
    requires Inv(s) && s.holder.None? && k in s.cache && !IsExpired(s.cache[k].expires, s.clock) && PcOf(s, t).Idle?
    ensures (exists picked :: DelMisses(Next(s, Gc(picked)), k, t)) <==> StoredExpiryPassed(s, k)
  {
    forall picked ensures DelMisses(Next(s, Gc(picked)), k, t) <==> k !in Next(s, Gc(picked)).rows {
      DelChangesNothingExactly(Next(s, Gc(picked)), k, t);
      LiveEntryAnswers(Next(s, Gc(picked)), k, t);
    }
    forall picked ensures k !in Next(s, Gc(picked)).rows ==> StoredExpiryPassed(s, k) { GcMayTakeRow(s, k, picked); }
    if StoredExpiryPassed(s, k) {
      GcMayTakeRow(s, k, {k});
      assert DelMisses(Next(s, Gc({k})), k, t);
    }
  }

  // ---- and it is reachable, for every key, value, TTL and drift ----

  /** A SET with its row stored at `wrote` and its cache entry still to come. */
  function HalfSet(k: string, v: string, ttl: U64, wrote: int, clock: int): State {
    State(map[k := Row(Text(v), Some(wrote + ttl), 1)], map[], clock, Some(0),
          map[0 := Storing(k, SetOp(v, Some(ttl), false, false), None, wrote)], map[], [])
  }

  /** The same SET finished `drift` seconds later. */
  function SlowSet(k: string, v: string, ttl: U64, wrote: int, drift: nat, clock: int): State {
    var row := Row(Text(v), Some(wrote + ttl), 1);
    State(map[k := row], map[k := CachedValue(v, Some(wrote + drift + ttl))], clock, None, map[0 := Idle],
          map[k := [Commit(Some(row), Some(ttl), wrote, wrote + drift)]], [])
  }

  lemma SlowSetStores(k: string, v: string, ttl: U64, wrote: int)
    requires k != "" && InI64(wrote + ttl)
    ensures Next(Init(map[], wrote), StoreWrite(0, k, SetOp(v, Some(ttl), false, false)))
            == HalfSet(k, v, ttl, wrote, wrote)
  {
    var s0, w := Init(map[], wrote), SetOp(v, Some(ttl), false, false);
    assert s0.history == map[] && s0.rows == map[];
    assert Next(s0, StoreWrite(0, k, w)) == DoStoreWrite(s0, 0, k, w);
    assert Effect(w, None, wrote) == Some(Row(Text(v), Some(wrote + ttl), 1));
  }

  lemma SlowSetCaches(k: string, v: string, ttl: U64, wrote: int, drift: nat)
    requires InI64(wrote + drift + ttl)
    ensures Next(HalfSet(k, v, ttl, wrote, wrote + drift), FinishWrite(0))
            == SlowSet(k, v, ttl, wrote, drift, wrote + drift)
  {
    var s := HalfSet(k, v, ttl, wrote, wrote + drift);
    var c := Commit(Some(Row(Text(v), Some(wrote + ttl), 1)), Some(ttl), wrote, wrote + drift);
    assert Hist(s, k) + [c] == [c];
    assert Next(s, FinishWrite(0)) == DoFinishWrite(s, 0);
  }

  lemma {:induction false} RunConcat(s: State, a: seq<Event>, b: seq<Event>)
    ensures Run(s, a + b) == Run(Run(s, a), b)
    decreases |b|
  {
    if b == [] {
      assert a + b == a;
    } else {
      RunConcat(s, a, b[..|b| - 1]);
      assert (a + b)[..|a + b| - 1] == a + b[..|b| - 1];
    }
  }

  lemma RunTwo(s: State, a: Event, b: Event)
    ensures Run(s, [a, b]) == Next(Next(s, a), b)
  {
    assert [a, b][..1] == [a] && [a][..0] == [];
    assert Run(s, [a]) == Next(Run(s, []), a);
  }

  /** Seconds from the end of the slow SET until its stored expiry, if that is still to come. */
  function UntilExpiry(ttl: nat, drift: nat): nat { if drift < ttl then ttl - drift else 0 }

  function SlowSetEvents(k: string, v: string, ttl: U64, drift: nat): seq<Event> {
    [StoreWrite(0, k, SetOp(v, Some(ttl), false, false)), Tick(drift)] + [FinishWrite(0), Tick(UntilExpiry(ttl, drift))]
  }

  lemma SlowSetBegins(k: string, v: string, ttl: U64, wrote: int, drift: nat)
    requires k != "" && InI64(wrote + ttl)
    ensures Run(Init(map[], wrote), [StoreWrite(0, k, SetOp(v, Some(ttl), false, false)), Tick(drift)])
         == HalfSet(k, v, ttl, wrote, wrote + drift)
  {
    RunTwo(Init(map[], wrote), StoreWrite(0, k, SetOp(v, Some(ttl), false, false)), Tick(drift));
    SlowSetStores(k, v, ttl, wrote);
  }

  lemma SlowSetEnds(k: string, v: string, ttl: U64, wrote: int, drift: nat, wait: nat)
    requires InI64(wrote + drift + ttl)
    ensures Run(HalfSet(k, v, ttl, wrote, wrote + drift), [FinishWrite(0), Tick(wait)])
         == SlowSet(k, v, ttl, wrote, drift, wrote + drift + wait)
  {
    RunTwo(HalfSet(k, v, ttl, wrote, wrote + drift), FinishWrite(0), Tick(wait));
    SlowSetCaches(k, v, ttl, wrote, drift);
  }

  lemma SlowSetReachable(k: string, v: string, ttl: U64, wrote: int, drift: nat)
    requires k != "" && InI64(wrote + ttl) && InI64(wrote + drift + ttl)
    ensures Run(Init(map[], wrote), SlowSetEvents(k, v, ttl, drift))
         == SlowSet(k, v, ttl, wrote, drift, wrote + drift + UntilExpiry(ttl, drift))
  {
    SlowSetBegins(k, v, ttl, wrote, drift);
    SlowSetEnds(k, v, ttl, wrote, drift, UntilExpiry(ttl, drift));
    RunConcat(Init(map[], wrote), [StoreWrite(0, k, SetOp(v, Some(ttl), false, false)), Tick(drift)],
              [FinishWrite(0), Tick(UntilExpiry(ttl, drift))]);
  }

  /** For every key, value, positive TTL and positive drift inside a SET, a run reaches a state where a GC makes a
      DEL miss the value a GET still returns. */
  lemma DelMayMissACachedValue(k: string, v: string, ttl: U64, wrote: int, drift: nat)
    requires k != "" && 0 < ttl && 0 < drift && InI64(wrote + ttl) && InI64(wrote + drift + ttl)
    ensures var s := Run(Init(map[], wrote), SlowSetEvents(k, v, ttl, drift));
            && k in s.cache && s.cache[k].value == v && !IsExpired(s.cache[k].expires, s.clock)
            && exists picked :: DelMisses(Next(s, Gc(picked)), k, 1)
  {
    SlowSetReachable(k, v, ttl, wrote, drift);
    DelMissesExactlyInDriftWindow(map[], wrote, SlowSetEvents(k, v, ttl, drift), k, 1);
  }
}
