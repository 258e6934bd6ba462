/** The body of one settlement run (crates/api-server/src/settlement.rs), proved to be a run of the machine in
    Settlement and to book every billable metric of every tenant it walks. */
module SettleOnce {
  import opened Base
  import opened Usage
  import opened Ledger
  import opened Settlement
  import Metering
  import Charges
  import opened UsageQuery

  const DEFAULT_TENANT: TenantId := "00000000-0000-0000-0000-000000000001"

  ghost function Seen(buckets: seq<UsageKey>, m: Metric): set<UsageKey> { set k | k in buckets && k.metric == m }

  lemma SeenNext(buckets: seq<UsageKey>, k: UsageKey, m: Metric, usage: Amounts)
    requires k !in buckets
    ensures Total(Seen(buckets + [k], m), usage)
         == Total(Seen(buckets, m), usage) + if k.metric == m then Amount(usage, k) else 0
  {
    if k.metric == m {
      assert Seen(buckets + [k], m) == Seen(buckets, m) + {k};
      TotalPick(Seen(buckets + [k], m), usage, k);
      assert Seen(buckets + [k], m) - {k} == Seen(buckets, m);
    } else {
      assert Seen(buckets + [k], m) == Seen(buckets, m);
    }
  }

  ghost predicate Aggregates(byMetric: map<Metric, nat>, buckets: seq<UsageKey>, usage: Amounts) {
    && (forall m :: m in byMetric <==> Seen(buckets, m) != {})
    && (forall m :: m in byMetric ==> byMetric[m] == Total(Seen(buckets, m), usage))
  }

  lemma AggregatesNext(byMetric: map<Metric, nat>, buckets: seq<UsageKey>, k: UsageKey, usage: Amounts)
    requires Aggregates(byMetric, buckets, usage) && k !in buckets && k in usage
    ensures Aggregates(byMetric[k.metric := (if k.metric in byMetric then byMetric[k.metric] else 0) + usage[k]],
            buckets + [k], usage)
  {
    var n := byMetric[k.metric := (if k.metric in byMetric then byMetric[k.metric] else 0) + usage[k]];
    forall m
      ensures m in n <==> Seen(buckets + [k], m) != {}
      ensures m in n ==> n[m] == Total(Seen(buckets + [k], m), usage)
    {
      SeenNext(buckets, k, m, usage);
      assert Seen(buckets + [k], m) == Seen(buckets, m) + if k.metric == m then {k} else {};
    }
  }

  lemma AggregatesTotals(byMetric: map<Metric, nat>, buckets: seq<UsageKey>, usage: Amounts, t: TenantId, lo: int,
                         hi: int)
    requires Aggregates(byMetric, buckets, usage) && Answers(buckets, usage, t, None, None, lo, hi)
    ensures byMetric == Totals(usage, t, lo, hi)
  {
    var totals := Totals(usage, t, lo, hi);
    forall m ensures Seen(buckets, m) == KeysIn(usage, t, m, lo, hi) {
      forall k ensures k in Seen(buckets, m) <==> k in KeysIn(usage, t, m, lo, hi) {
        assert k in buckets <==> k in usage && Matches(k, t, None, None, lo, hi);
      }
    }
    forall m ensures m in byMetric <==> m in totals {
      if m in byMetric {
        var k :| k in Seen(buckets, m);
        assert k in usage && k.tenant == t && lo <= k.bucket <= hi && k.metric == m;
      }
      if m in totals {
        var k :| k in usage && k.tenant == t && lo <= k.bucket <= hi && k.metric == m;
        assert k in Seen(buckets, m);
      }
    }
    assert byMetric.Keys == totals.Keys;
  }

  /** Aggregation per metric over all Cells. */
  method Aggregate(usage: Amounts, buckets: seq<UsageKey>, ghost t: TenantId, ghost lo: int, ghost hi: int)
    returns (byMetric: map<Metric, nat>)
    requires Answers(buckets, usage, t, None, None, lo, hi)
    ensures byMetric == Totals(usage, t, lo, hi)
  {
    byMetric := map[];
    for i := 0 to |buckets|
      invariant Aggregates(byMetric, buckets[..i], usage)
    {
      var k := buckets[i];
      assert k in buckets;
      assert buckets[..i + 1] == buckets[..i] + [k];
      forall j | 0 <= j < i ensures buckets[j] != k { OrderedIsDistinct(buckets, j, i); }
      AggregatesNext(byMetric, buckets[..i], k, usage);
      byMetric := byMetric[k.metric := (if k.metric in byMetric then byMetric[k.metric] else 0) + usage[k]];
    }
    assert buckets[..|buckets|] == buckets;
    AggregatesTotals(byMetric, buckets, usage, t, lo, hi);
  }

  /** Query and aggregate one tenant's window. */
  method QueryTotals(usage: Amounts, t: TenantId, lo: int, hi: int) returns (byMetric: map<Metric, nat>)
    ensures byMetric == Totals(usage, t, lo, hi)
  {
    var buckets := QueryUsage(usage, t, None, None, lo, hi);
    byMetric := Aggregate(usage, buckets, t, lo, hi);
  }

  // ---- charging ----

  predicate Billable(p: Pricing, m: Metric, total: nat) { !m.StorageBytes? && RateOf(p, m, total) != 0 }

  /** Every billable metric in `which` whose append was not refused has its entry in the book. */
  ghost predicate MetricsBooked(b: Book, p: Pricing, t: TenantId, totals: map<Metric, nat>, which: set<Metric>,
                                last: int, refused: set<(TenantId, Metric)>)
  {
    forall m :: m in Due(p, t, totals, which, refused) ==> Charges.RefKnown(b, UsageRef(t, m, last, p.version))
  }

  /** The billable metrics in `which` whose append was not refused. */
  ghost function Due(p: Pricing, t: TenantId, totals: map<Metric, nat>, which: set<Metric>,
                     refused: set<(TenantId, Metric)>): set<Metric>
  {
    set m | m in which && m in totals && Billable(p, m, totals[m]) && (t, m) !in refused
  }

  lemma DueNext(p: Pricing, t: TenantId, totals: map<Metric, nat>, which: set<Metric>, m: Metric,
                refused: set<(TenantId, Metric)>)
    requires m !in which && m in totals
    ensures Due(p, t, totals, which + {m}, refused)
         == Due(p, t, totals, which, refused) + if Billable(p, m, totals[m]) && (t, m) !in refused then {m} else {}
  {
  }

  ghost function TenantDue(p: Pricing, usage: Amounts, t: TenantId, last: int, cur: int,
                           refused: set<(TenantId, Metric)>): set<Metric>
  {
    var totals := Totals(usage, t, last, cur - BUCKET_SECS);
    Due(p, t, totals, totals.Keys, refused)
  }

  ghost function DueCount(p: Pricing, usage: Amounts, tenants: seq<TenantId>, last: int, cur: int,
                          refused: set<(TenantId, Metric)>): nat
  {
    if tenants == [] then 0
    else
      var t := tenants[|tenants| - 1];
      DueCount(p, usage, tenants[..|tenants| - 1], last, cur, refused) + |TenantDue(p, usage, t, last, cur, refused)|
  }

  /** Every metric a tenant owes for a window has its entry in the book. */
  ghost predicate TenantBooked(b: Book, p: Pricing, usage: Amounts, t: TenantId, last: int, cur: int,
                               refused: set<(TenantId, Metric)>)
  {
    forall m :: m in TenantDue(p, usage, t, last, cur, refused) ==> Charges.RefKnown(b, UsageRef(t, m, last, p.version))
  }

  /** Books only gain references. */
  ghost predicate Extends(b: Book, n: Book) { forall r :: Charges.RefKnown(b, r) ==> Charges.RefKnown(n, r) }

  lemma BookedStays(b: Book, n: Book, p: Pricing, usage: Amounts, t: TenantId, last: int, cur: int,
                    refused: set<(TenantId, Metric)>)
    requires TenantBooked(b, p, usage, t, last, cur, refused) && Extends(b, n)
    ensures TenantBooked(n, p, usage, t, last, cur, refused)
  {
  }

  /** After the metrics in `done`: their entries are in the book and counted. */
  ghost predicate Progress(b: Book, p: Pricing, t: TenantId, totals: map<Metric, nat>, done: set<Metric>, last: int,
                           refused: set<(TenantId, Metric)>, written: nat)
  {
    MetricsBooked(b, p, t, totals, done, last, refused) && written == |Due(p, t, totals, done, refused)|
  }

  lemma ProgressNext(b: Book, n: Book, p: Pricing, t: TenantId, totals: map<Metric, nat>, done: set<Metric>,
                     m: Metric, last: int, refused: set<(TenantId, Metric)>, written: nat, w: nat)
    requires Progress(b, p, t, totals, done, last, refused, written) && Extends(b, n) && m !in done && m in totals
    requires Billable(p, m, totals[m]) && (t, m) !in refused ==> Charges.RefKnown(n, UsageRef(t, m, last, p.version))
    requires w == if Billable(p, m, totals[m]) && (t, m) !in refused then 1 else 0
    ensures Progress(n, p, t, totals, done + {m}, last, refused, written + w)
  {
    DueNext(p, t, totals, done, m, refused);
  }

  lemma ExtendsTransitive(a: Book, b: Book, c: Book)
    requires Extends(a, b) && Extends(b, c)
    ensures Extends(a, c)
  {
  }

  lemma AppendExtends(b: Book, txn: Txn)
    ensures Extends(b, Append(b, txn))
    ensures txn.reference.Some? ==> Charges.RefKnown(Append(b, txn), txn.reference.value)
  {
  }

  lemma WholeRun(p: Pricing, s0: System, first: Event, middle: seq<Event>, s2: System, end: Event)
    returns (events: seq<Event>)
    requires s2 == Run(p, Next(p, s0, first), middle)
    ensures Run(p, s0, events) == Next(p, s2, end)
  {
    RunSnoc(p, Next(p, s0, first), middle, end);
    RunCons(p, s0, first, middle + [end]);
    events := [first] + (middle + [end]);
  }

  lemma QueryStep(p: Pricing, s: System) returns (n: System)
    requires s.phase.Walking? && s.phase.todo != []
    ensures n == Next(p, s, Query) && n.book == s.book && n.meter == s.meter && n.watermark == s.watermark
    ensures n.phase == Charging(s.phase.cur, s.phase.last, s.phase.todo[1..], s.phase.todo[0],
                                Totals(s.meter.stored, s.phase.todo[0], s.phase.last, s.phase.cur - BUCKET_SECS))
  {
    n := Next(p, s, Query);
  }

  /** Query, charges and the step to the next tenant make up the run over one tenant. */
  lemma TenantRun(p: Pricing, s0: System, s1: System, charges: seq<Event>, s2: System) returns (events: seq<Event>)
    requires s1 == Next(p, s0, Query) && s2 == Run(p, s1, charges) && s2.phase.Charging? && s2.phase.totals == map[]
    ensures Run(p, s0, events) == s2.(phase := Walking(s2.phase.cur, s2.phase.last, s2.phase.todo))
  {
    events := WholeRun(p, s0, Query, charges, s2, NextTenant);
  }

  /** With the default tenant, which takes part even when it was never created. */
  function WithDefault(tenants: seq<TenantId>): (all: seq<TenantId>)
    ensures forall t :: t in all <==> t in tenants || t == DEFAULT_TENANT
    ensures tenants <= all && |all| <= |tenants| + 1
  {
    if DEFAULT_TENANT in tenants then tenants else tenants + [DEFAULT_TENANT]
  }

  /** `sys` is the machine state this instance is in; `nextId` stands for the source of fresh entry ids. */
  class Settler {
    var lastSettled: int
    var nextId: nat
    ghost var sys: System

    constructor (credits: CreditStore, firstId: nat, ghost clock: int)
      requires forall id :: id in credits.transactions ==> id < firstId
      ensures lastSettled == 0 && sys == Start(credits.View(), clock) && Follows(credits)
    {
      lastSettled, nextId := 0, firstId;
      sys := Start(credits.View(), clock);
    }

    ghost predicate Follows(credits: CreditStore)
      reads this, credits
    {
      && sys.watermark == lastSettled && sys.book == credits.View()
      && forall id :: id in credits.transactions ==> id < nextId
    }

    /** One metric of one tenant. */
    method ChargeMetric(credits: CreditStore, p: Pricing, m: Metric, total: nat, t: TenantId, last: int, ok: bool)
      returns (written: nat)
      requires Follows(credits) && sys.phase.Charging? && sys.phase.tenant == t && sys.phase.last == last
      requires m in sys.phase.totals && sys.phase.totals[m] == total
      modifies this, credits
      ensures Follows(credits) && sys == Next(p, old(sys), Settlement.ChargeMetric(m, ok, old(nextId)))
      ensures lastSettled == old(lastSettled) && Extends(old(sys.book), sys.book)
      ensures Billable(p, m, total) && ok ==> Charges.RefKnown(sys.book, UsageRef(t, m, last, p.version))
      ensures written == if Billable(p, m, total) && ok then 1 else 0
    {
      written := 0;
      ghost var event := Settlement.ChargeMetric(m, ok, nextId);
      sys := Next(p, sys, event);
      if m.StorageBytes? { return; }
      var charge := RateOf(p, m, total);
      if charge == 0 { return; }
      var txn := Txn(nextId, t, UsageCharge, -charge, Some(p.version), Some(UsageRef(t, m, last, p.version)), None);
      nextId := nextId + 1;
      if ok {
        AppendExtends(credits.View(), txn);
        var _ := credits.AppendCreditTransaction(txn);
        written := 1;
      }
    }

    method ChargeTenant(credits: CreditStore, p: Pricing, t: TenantId, byMetric: map<Metric, nat>, last: int,
                        refused: set<(TenantId, Metric)>)
      returns (written: nat, ghost events: seq<Event>)
      requires Follows(credits) && sys.phase.Charging? && sys.phase.tenant == t && sys.phase.last == last
               && sys.phase.totals == byMetric
      modifies this, credits
      ensures Follows(credits) && sys == Run(p, old(sys), events)
      ensures lastSettled == old(lastSettled) && Extends(old(sys.book), sys.book)
      ensures sys.meter == old(sys.meter) && sys.phase == old(sys.phase).(totals := map[])
      ensures MetricsBooked(sys.book, p, t, byMetric, byMetric.Keys, last, refused)
      ensures written == |Due(p, t, byMetric, byMetric.Keys, refused)|
    {
      written, events := 0, [];
      var rest := byMetric;
      ghost var done := {};
      while rest != map[]
        invariant Follows(credits) && sys == Run(p, old(sys), events)
        invariant lastSettled == old(lastSettled) && Extends(old(sys.book), sys.book)
        invariant sys.meter == old(sys.meter) && sys.phase == old(sys.phase).(totals := rest)
        invariant rest.Keys == byMetric.Keys - done && done <= byMetric.Keys
        invariant forall m :: m in rest ==> rest[m] == byMetric[m]
        invariant Progress(sys.book, p, t, byMetric, done, last, refused, written)
        decreases rest.Keys
      {
        var m :| m in rest;
        ghost var e := Settlement.ChargeMetric(m, (t, m) !in refused, nextId);
        ghost var before := sys.book;
        RunSnoc(p, old(sys), events, e);
        var w := ChargeMetric(credits, p, m, rest[m], t, last, (t, m) !in refused);
        ExtendsTransitive(old(sys.book), before, sys.book);
        ProgressNext(before, sys.book, p, t, byMetric, done, m, last, refused, written, w);
        events, written, rest, done := events + [e], written + w, rest - {m}, done + {m};
      }
      assert done == byMetric.Keys;
    }

    /** One tenant: query, aggregate, charge. */
    method SettleTenant(usage: Metering.UsageStore, credits: CreditStore, p: Pricing, t: TenantId, last: int, cur: int,
                        refused: set<(TenantId, Metric)>)
      returns (written: nat, ghost events: seq<Event>)
      requires Follows(credits) && sys.meter.stored == usage.usage
      requires sys.phase.Walking? && sys.phase.cur == cur && sys.phase.last == last && sys.phase.todo != []
               && sys.phase.todo[0] == t
      modifies this, credits
      ensures Follows(credits) && sys == Run(p, old(sys), events)
      ensures lastSettled == old(lastSettled) && Extends(old(sys.book), sys.book)
      ensures sys.meter == old(sys.meter) && sys.phase == Walking(cur, last, old(sys.phase).todo[1..])
      ensures TenantBooked(sys.book, p, usage.usage, t, last, cur, refused)
      ensures written == |TenantDue(p, usage.usage, t, last, cur, refused)|
    {
      var byMetric := QueryTotals(usage.usage, t, last, cur - BUCKET_SECS);
      ghost var s0 := sys;
      sys := QueryStep(p, s0);
      ghost var s1 := sys;
      written, events := ChargeTenant(credits, p, t, byMetric, last, refused);
      events := TenantRun(p, s0, s1, events, sys);
      sys := sys.(phase := Walking(cur, last, sys.phase.todo));
    }

    /** The walk over the tenants; `failed` when a usage query fails. */
    method SettleTenants(usage: Metering.UsageStore, credits: CreditStore, p: Pricing, tenants: seq<TenantId>,
                         last: int, cur: int, failing: set<TenantId>, refused: set<(TenantId, Metric)>)
      returns (written: nat, failed: bool, ghost events: seq<Event>)
      requires Follows(credits) && sys.meter.stored == usage.usage && sys.phase == Walking(cur, last, tenants)
      modifies this, credits
      ensures Follows(credits) && sys == Run(p, old(sys), events) && sys.phase.Walking?
      ensures lastSettled == old(lastSettled) && sys.meter == old(sys.meter)
      ensures failed <==> exists t :: t in tenants && t in failing
      ensures !failed ==>
                sys.phase == Walking(cur, last, []) && written == DueCount(p, usage.usage, tenants, last, cur, refused)
      ensures !failed ==> forall j :: 0 <= j < |tenants| ==>
                TenantBooked(sys.book, p, usage.usage, tenants[j], last, cur, refused)
    {
      written, failed, events := 0, false, [];
      for i := 0 to |tenants|
        invariant Follows(credits) && sys == Run(p, old(sys), events)
        invariant lastSettled == old(lastSettled) && sys.meter == old(sys.meter)
        invariant sys.phase == Walking(cur, last, tenants[i..])
        invariant forall j :: 0 <= j < i ==>
                    tenants[j] !in failing && TenantBooked(sys.book, p, usage.usage, tenants[j], last, cur, refused)
        invariant written == DueCount(p, usage.usage, tenants[..i], last, cur, refused)
      {
        if tenants[i] in failing { return 0, true, events; }
        ghost var before := sys.book;
        var w, es := SettleTenant(usage, credits, p, tenants[i], last, cur, refused);
        RunConcat(p, old(sys), events, es);
        forall j | 0 <= j < i ensures TenantBooked(sys.book, p, usage.usage, tenants[j], last, cur, refused) {
          BookedStays(before, sys.book, p, usage.usage, tenants[j], last, cur, refused);
        }
        assert tenants[..i + 1][..i] == tenants[..i];
        written, events := written + w, events + es;
      }
      assert tenants[..|tenants|] == tenants;
    }

    /** One run over `listing` (the answer of list_tenants). Usage queries fail for the tenants in `failing`, and
        the ledger refuses the entries in `refused`. */
    method SettleOnce(usage: Metering.UsageStore, credits: CreditStore, p: Pricing, listing: Result<seq<TenantId>>,
                      failing: set<TenantId>, refused: set<(TenantId, Metric)>, now: int)
      returns (r: Result<nat>, ghost events: seq<Event>, ghost cur: int, ghost last: int)
      requires Follows(credits) && sys.meter.stored == usage.usage && sys.phase.Resting? && sys.clock == now
      modifies this, credits
      ensures cur == BucketStart(now) && last == LastBucket(old(lastSettled), cur)
      ensures Follows(credits) && sys.phase.Resting? && sys == Run(p, old(sys), events)
      ensures cur <= last ==> r == Ok(0) && sys == old(sys)
      ensures r.Err? <==> last < cur && (listing.Err? || exists t :: t in WithDefault(listing.value) && t in failing)
      ensures r.Err? ==> lastSettled == old(lastSettled)
      ensures last < cur && r.Ok? ==>
                lastSettled == cur && r == Ok(DueCount(p, usage.usage, WithDefault(listing.value), last, cur, refused))
      ensures last < cur && r.Ok? ==>
                forall t :: t in listing.value || t == DEFAULT_TENANT ==>
                    TenantBooked(sys.book, p, usage.usage, t, last, cur, refused)
    {
      events := [];
      var current := BucketStart(now);
      var since := lastSettled;
      if since == 0 { since := current - 60; }
      cur, last := current, since;
      if current <= since { return Ok(0), events, cur, last; }
      if listing.Err? {
        RunOne(p, sys, Begin([]));
        RunSnoc(p, sys, [Begin([])], Fail);
        sys, events := Next(p, Next(p, sys, Begin([])), Fail), [Begin([])] + [Fail];
        return Err(listing.error), events, cur, last;
      }
      var tenants := listing.value;
      if DEFAULT_TENANT !in tenants { tenants := tenants + [DEFAULT_TENANT]; }
      ghost var s0 := sys;
      sys := Next(p, sys, Begin(tenants));
      var written, failed, es := SettleTenants(usage, credits, p, tenants, since, current, failing, refused);
      ghost var end := if failed then Fail else Finish;
      events := WholeRun(p, s0, Begin(tenants), es, sys, end);
      sys := Next(p, sys, end);
      if failed { return Err(Internal), events, cur, last; }
      lastSettled := current;
      r := Ok(written);
    }
  }
}
