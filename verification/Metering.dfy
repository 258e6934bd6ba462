/** Usage metering (crates/api-server/src/usage.rs): counters in memory, drained and flushed to the store
    key by key, requeued on failure. Nothing recorded is lost or invented. */
module Metering {
  import opened Base
  import opened Usage

  class UsageStore {
    var usage: Amounts

    constructor ()
      ensures usage == map[]
    {
      usage := map[];
    }

    method UsageAdd(key: UsageKey, delta: nat)
      modifies this
      ensures usage == Add(old(usage), key, delta)
    {
      usage := usage[key := (if key in usage then usage[key] else 0) + delta];
    }
  }

  class UsageMeter {
    var counters: Amounts

    constructor ()
      ensures counters == map[]
    {
      counters := map[];
    }

    method Record(tenant: TenantId, cell: Option<nat>, metric: Metric, delta: nat, now: int)
      modifies this
      ensures delta == 0 ==> counters == old(counters)
      ensures delta > 0 ==> counters == Add(old(counters), UsageKey(tenant, cell, metric, BucketStart(now)), delta)
    {
      if delta == 0 { return; }
      var key := UsageKey(tenant, cell, metric, BucketStart(now));
      counters := counters[key := (if key in counters then counters[key] else 0) + delta];
    }

    /** One flush with nothing interleaved: `order` is the order the drained map is walked in, `refused`
        the keys whose store call fails. What was accepted moves to the store, what was refused is back
        in the counters, and every key's sum is what it was. */
    method FlushOnce(store: UsageStore, order: seq<UsageKey>, refused: set<UsageKey>) returns (flushed: nat)
      requires Walks(order, counters)
      modifies this, store
      ensures counters == Restrict(old(counters), refused)
      ensures store.usage == Merged(old(store.usage), old(counters), old(counters).Keys - refused)
      ensures flushed == |old(counters).Keys - refused|
    {
      var batch := counters;
      counters := map[];
      ghost var start := store.usage;
      flushed := Deliver(store, batch, order, refused);
      WalkedAll(order, batch);
      TakenIsMerged(start, batch, order, refused);
      RequeuedIsRestricted(batch, order, refused);
      TakenCounts(order, refused);
    }

    /** The loop over a drained batch. */
    method Deliver(store: UsageStore, batch: Amounts, order: seq<UsageKey>, refused: set<UsageKey>)
      returns (flushed: nat)
      requires counters == map[] && forall i :: 0 <= i < |order| ==> order[i] in batch
      modifies this, store
      ensures counters == Requeued(batch, order, refused)
      ensures store.usage == Taken(old(store.usage), batch, order, refused)
      ensures flushed == TakenCount(order, refused)
    {
      flushed := 0;
      for i := 0 to |order|
        invariant counters == Requeued(batch, order[..i], refused)
        invariant store.usage == Taken(old(store.usage), batch, order[..i], refused)
        invariant flushed == TakenCount(order[..i], refused)
      {
        var key := order[i];
        assert order[..i + 1][..i] == order[..i];
        if key in refused {
          counters := counters[key := (if key in counters then counters[key] else 0) + batch[key]];
        } else {
          store.UsageAdd(key, batch[key]);
          flushed := flushed + 1;
        }
      }
      assert order[..|order|] == order;
    }
  }

  // ---- what the flush loop has done after walking `order` ----

  function Taken(usage: Amounts, batch: Amounts, order: seq<UsageKey>, refused: set<UsageKey>): Amounts {
    if order == [] then usage
    else
      var n := |order| - 1;
      var before := Taken(usage, batch, order[..n], refused);
      if order[n] in refused then before else Add(before, order[n], Amount(batch, order[n]))
  }

  function Requeued(batch: Amounts, order: seq<UsageKey>, refused: set<UsageKey>): Amounts {
    if order == [] then map[]
    else
      var n := |order| - 1;
      var before := Requeued(batch, order[..n], refused);
      if order[n] in refused then Add(before, order[n], Amount(batch, order[n])) else before
  }

  function TakenCount(order: seq<UsageKey>, refused: set<UsageKey>): nat {
    if order == [] then 0
    else TakenCount(order[..|order| - 1], refused) + if order[|order| - 1] in refused then 0 else 1
  }

  ghost function Walked(order: seq<UsageKey>): set<UsageKey> { set k | k in order }

  ghost predicate Distinct(order: seq<UsageKey>) { forall i, j :: 0 <= i < j < |order| ==> order[i] != order[j] }

  lemma WalkedAll(order: seq<UsageKey>, m: Amounts)
    requires Walks(order, m)
    ensures Walked(order) == m.Keys && Distinct(order)
  {
  }

  lemma WalkedStep(order: seq<UsageKey>)
    requires order != [] && Distinct(order)
    ensures var n := |order| - 1;
            Walked(order) == Walked(order[..n]) + {order[n]} && order[n] !in Walked(order[..n]) && Distinct(order[..n])
  {
    var n := |order| - 1;
    assert order == order[..n] + [order[n]];
  }

  lemma {:induction false} TakenIsMerged(usage: Amounts, batch: Amounts, order: seq<UsageKey>, refused: set<UsageKey>)
    requires Distinct(order) && Walked(order) <= batch.Keys
    ensures Taken(usage, batch, order, refused) == Merged(usage, batch, Walked(order) - refused)
    decreases |order|
  {
    if order == [] {
      assert Merged(usage, batch, Walked(order) - refused) == usage;
    } else {
      var n := |order| - 1;
      WalkedStep(order);
      TakenIsMerged(usage, batch, order[..n], refused);
      if order[n] in refused {
        assert Walked(order) - refused == Walked(order[..n]) - refused;
      } else {
        assert Walked(order) - refused == Walked(order[..n]) - refused + {order[n]};
        MergedStep(usage, batch, Walked(order[..n]) - refused, order[n]);
      }
    }
  }

  lemma {:induction false} RequeuedIsRestricted(batch: Amounts, order: seq<UsageKey>, refused: set<UsageKey>)
    requires Distinct(order) && Walked(order) <= batch.Keys
    ensures Requeued(batch, order, refused) == Restrict(batch, Walked(order) * refused)
    ensures Walked(order) == batch.Keys ==> Requeued(batch, order, refused) == Restrict(batch, refused)
    decreases |order|
  {
    if order != [] {
      var n := |order| - 1;
      WalkedStep(order);
      RequeuedIsRestricted(batch, order[..n], refused);
      if order[n] in refused {
        assert Walked(order) * refused == Walked(order[..n]) * refused + {order[n]};
        RestrictStep(batch, Walked(order[..n]) * refused, order[n]);
      } else {
        assert Walked(order) * refused == Walked(order[..n]) * refused;
      }
    }
    if Walked(order) == batch.Keys {
      assert Restrict(batch, Walked(order) * refused) == Restrict(batch, refused);
    }
  }

  lemma {:induction false} TakenCounts(order: seq<UsageKey>, refused: set<UsageKey>)
    requires Distinct(order)
    ensures TakenCount(order, refused) == |Walked(order) - refused|
    decreases |order|
  {
    if order != [] {
      var n := |order| - 1;
      WalkedStep(order);
      TakenCounts(order[..n], refused);
      if order[n] in refused {
        assert Walked(order) - refused == Walked(order[..n]) - refused;
      } else {
        assert Walked(order) - refused == Walked(order[..n]) - refused + {order[n]};
      }
    }
  }

  /** A flush keeps refused amounts in the counters, adds all others to the store, and keeps every key's sum. */
  lemma FlushKeepsSums(usage: Amounts, counters: Amounts, refused: set<UsageKey>, k: UsageKey)
    ensures Amount(Restrict(counters, refused), k) == if k in refused then Amount(counters, k) else 0
    ensures k in refused ==> Amount(Merged(usage, counters, counters.Keys - refused), k) == Amount(usage, k)
    ensures Amount(Merged(usage, counters, counters.Keys - refused), k) + Amount(Restrict(counters, refused), k)
         == Amount(usage, k) + Amount(counters, k)
  {
  }

  /** The entries of `m` under the given keys. */
  function Restrict(m: Amounts, keys: set<UsageKey>): Amounts {
    map k | k in m && k in keys :: m[k]
  }

  /** `usage` with the amounts of `m` under the given keys added. */
  function Merged(usage: Amounts, m: Amounts, keys: set<UsageKey>): Amounts {
    map k | k in usage.Keys + keys :: Amount(usage, k) + if k in keys then Amount(m, k) else 0
  }

  lemma RestrictStep(m: Amounts, keys: set<UsageKey>, key: UsageKey)
    requires key in m && key !in keys
    ensures Restrict(m, keys + {key}) == Add(Restrict(m, keys), key, m[key])
  {
  }

  lemma MergedStep(usage: Amounts, m: Amounts, keys: set<UsageKey>, key: UsageKey)
    requires key in m && key !in keys
    ensures Merged(usage, m, keys + {key}) == Add(Merged(usage, m, keys), key, m[key])
  {
    assert Merged(usage, m, keys + {key}).Keys == Add(Merged(usage, m, keys), key, m[key]).Keys;
  }

  /** `order` walks every key of `m` exactly once. */
  ghost predicate Walks(order: seq<UsageKey>, m: Amounts) {
    && (forall i, j :: 0 <= i < j < |order| ==> order[i] != order[j])
    && (forall k :: k in order <==> k in m)
  }

  // ---- flushes interleaved with recording ----

  datatype Item = Item(key: UsageKey, delta: nat)

  datatype Reply = Accepted | Refused | AckLost

  /** `batch` holds what any running flush has drained and not yet settled; `replayed` what the store
      took although the caller was told otherwise. */
  datatype Meter = Meter(recorded: Amounts, pending: Amounts, batch: seq<Item>, stored: Amounts, replayed: Amounts)

  datatype Event =
    | Record(key: UsageKey, delta: nat)
    | Drain(order: seq<UsageKey>)
    | Settle(i: nat, reply: Reply)

  function Empty(): Meter { Meter(map[], map[], [], map[], map[]) }

  function Items(m: Amounts, order: seq<UsageKey>): seq<Item>
    requires forall i :: 0 <= i < |order| ==> order[i] in m
  {
    seq(|order|, i requires 0 <= i < |order| => Item(order[i], m[order[i]]))
  }

  ghost function Next(s: Meter, e: Event): Meter {
    match e
    case Record(k, d) =>
      if d == 0 then s else s.(recorded := Add(s.recorded, k, d), pending := Add(s.pending, k, d))
    case Drain(order) =>
      if Walks(order, s.pending) then s.(batch := s.batch + Items(s.pending, order), pending := map[]) else s
    case Settle(i, reply) =>
      if i >= |s.batch| then s
      else
        var Item(k, d) := s.batch[i];
        var rest := s.batch[..i] + s.batch[i + 1..];
        match reply
        case Accepted => s.(batch := rest, stored := Add(s.stored, k, d))
        case Refused => s.(batch := rest, pending := Add(s.pending, k, d))
        case AckLost =>
          s.(batch := rest, stored := Add(s.stored, k, d), pending := Add(s.pending, k, d),
             replayed := Add(s.replayed, k, d))
  }

  ghost function Run(s: Meter, events: seq<Event>): Meter
    decreases |events|
  {
    if events == [] then s else Next(Run(s, events[..|events| - 1]), events[|events| - 1])
  }

  function InBatch(batch: seq<Item>, k: UsageKey): nat {
    if batch == [] then 0
    else InBatch(batch[..|batch| - 1], k) + if batch[|batch| - 1].key == k then batch[|batch| - 1].delta else 0
  }

  // ---- adding and recording one after the other ----

  /** The store after usage_add calls. */
  function AddAll(m: Amounts, items: seq<Item>): Amounts {
    if items == [] then m else Add(AddAll(m, items[..|items| - 1]), items[|items| - 1].key, items[|items| - 1].delta)
  }

  /** The counters after record calls. */
  function RecordAll(m: Amounts, items: seq<Item>): Amounts {
    if items == [] then m
    else
      var before := RecordAll(m, items[..|items| - 1]);
      if items[|items| - 1].delta == 0 then before else Add(before, items[|items| - 1].key, items[|items| - 1].delta)
  }

  /** Any calls add up per key. */
  lemma {:induction false} UsageAddsUp(m: Amounts, items: seq<Item>, k: UsageKey)
    ensures Amount(AddAll(m, items), k) == Amount(m, k) + InBatch(items, k)
    decreases |items|
  {
    if items != [] { UsageAddsUp(m, items[..|items| - 1], k); }
  }

  /** Any recordings add up per key, and a key appears only once something was recorded for it. */
  lemma {:induction false} RecordsAddUp(m: Amounts, items: seq<Item>, k: UsageKey)
    ensures Amount(RecordAll(m, items), k) == Amount(m, k) + InBatch(items, k)
    ensures k in RecordAll(m, items) <==> k in m || InBatch(items, k) > 0
    decreases |items|
  {
    if items != [] { RecordsAddUp(m, items[..|items| - 1], k); }
  }

  lemma {:induction false} InBatchConcat(a: seq<Item>, b: seq<Item>, k: UsageKey)
    ensures InBatch(a + b, k) == InBatch(a, k) + InBatch(b, k)
    decreases |b|
  {
    if b == [] {
      assert a + b == a;
    } else {
      InBatchConcat(a, b[..|b| - 1], k);
      assert (a + b)[..|a + b| - 1] == a + b[..|b| - 1];
    }
  }

  lemma InBatchRemove(batch: seq<Item>, i: nat, k: UsageKey)
    requires i < |batch|
    ensures InBatch(batch, k)
         == InBatch(batch[..i] + batch[i + 1..], k) + if batch[i].key == k then batch[i].delta else 0
  {
    assert batch == batch[..i] + [batch[i]] + batch[i + 1..];
    InBatchConcat(batch[..i] + [batch[i]], batch[i + 1..], k);
    InBatchConcat(batch[..i], [batch[i]], k);
    InBatchConcat(batch[..i], batch[i + 1..], k);
    assert [batch[i]][..0] == [];
  }

  lemma {:induction false} InBatchDrained(m: Amounts, order: seq<UsageKey>, k: UsageKey)
    requires forall i :: 0 <= i < |order| ==> order[i] in m
    requires forall i, j :: 0 <= i < j < |order| ==> order[i] != order[j]
    ensures InBatch(Items(m, order), k) == if k in order then m[k] else 0
    decreases |order|
  {
    if order != [] {
      var n := |order| - 1;
      InBatchDrained(m, order[..n], k);
      assert Items(m, order)[..n] == Items(m, order[..n]);
      assert k in order <==> k in order[..n] || k == order[n];
    }
  }

  /** Stored, pending and in flight make up exactly what was recorded, plus what was stored twice. */
  predicate Conserved(s: Meter, k: UsageKey) {
    Amount(s.stored, k) + Amount(s.pending, k) + InBatch(s.batch, k) == Amount(s.recorded, k) + Amount(s.replayed, k)
  }

  lemma DrainConserves(s: Meter, order: seq<UsageKey>, k: UsageKey)
    requires Conserved(s, k) && Walks(order, s.pending)
    ensures Conserved(s.(batch := s.batch + Items(s.pending, order), pending := map[]), k)
  {
    InBatchConcat(s.batch, Items(s.pending, order), k);
    InBatchDrained(s.pending, order, k);
    assert k in order <==> k in s.pending;
  }

  lemma RecordConserves(s: Meter, key: UsageKey, delta: nat, k: UsageKey)
    requires Conserved(s, k)
    ensures Conserved(s.(recorded := Add(s.recorded, key, delta), pending := Add(s.pending, key, delta)), k)
  {
  }

  /** Taking item `i` out of the batch and adding it to the store or back to the counters. */
  lemma SettleConserves(s: Meter, i: nat, reply: Reply, k: UsageKey)
    requires Conserved(s, k) && i < |s.batch|
    ensures Conserved(Next(s, Settle(i, reply)), k)
  {
    InBatchRemove(s.batch, i, k);
    var n := Next(s, Settle(i, reply));
    assert n.batch == s.batch[..i] + s.batch[i + 1..];
    assert InBatch(s.batch, k) == InBatch(n.batch, k) + if s.batch[i].key == k then s.batch[i].delta else 0;
  }

  lemma NextConserves(s: Meter, e: Event, k: UsageKey)
    requires Conserved(s, k)
    ensures Conserved(Next(s, e), k)
  {
    match e
    case Record(key, d) => RecordConserves(s, key, d, k);
    case Drain(order) => if Walks(order, s.pending) { DrainConserves(s, order, k); }
    case Settle(i, reply) => if i < |s.batch| { SettleConserves(s, i, reply, k); }
  }

  /** Conservation at every step of every interleaving of records and flushes with any failures. */
  lemma {:induction false} MeteringConserves(events: seq<Event>, k: UsageKey)
    ensures Conserved(Run(Empty(), events), k)
    decreases |events|
  {
    if events != [] {
      MeteringConserves(events[..|events| - 1], k);
      NextConserves(Run(Empty(), events[..|events| - 1]), events[|events| - 1], k);
    }
  }

  /** Without a lost acknowledgement nothing is counted twice. */
  lemma {:induction false} NothingReplayed(events: seq<Event>)
    requires forall i :: 0 <= i < |events| ==> !(events[i].Settle? && events[i].reply.AckLost?)
    ensures Run(Empty(), events).replayed == map[]
    decreases |events|
  {
    if events != [] { NothingReplayed(events[..|events| - 1]); }
  }

  /** What is stored only grows. */
  lemma StoredGrows(s: Meter, e: Event, k: UsageKey)
    ensures Amount(s.stored, k) <= Amount(Next(s, e).stored, k) && s.stored.Keys <= Next(s, e).stored.Keys
  {
    if e.Settle? && e.i < |s.batch| {
      var it := s.batch[e.i];
      assert Next(s, e).stored == s.stored || Next(s, e).stored == Add(s.stored, it.key, it.delta);
    }
  }
}
