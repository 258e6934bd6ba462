/** A settlement run that fails part-way, followed by a run under a clock that stepped back, charges the same
    usage twice: the reference that makes charges idempotent carries the start of the window, and a window
    starting elsewhere may cover the same minute. */
module DoubleCharge {
  import opened Base
  import opened Usage
  import opened Ledger
  import opened Settlement
  import opened Charges
  import opened Rating
  import Metering

  lemma RunThree(p: Pricing, s: System, e0: Event, e1: Event, e2: Event)
    ensures Run(p, s, [e0, e1, e2]) == Next(p, Next(p, Next(p, s, e0), e1), e2)
  {
    RunConcat(p, s, [e0, e1], [e2]);
    RunConcat(p, s, [e0], [e1]);
    assert [e0, e1] + [e2] == [e0, e1, e2] && [e0] + [e1] == [e0, e1];
    RunOne(p, s, e0);
    RunOne(p, Next(p, s, e0), e1);
    RunOne(p, Next(p, Next(p, s, e0), e1), e2);
  }

  /** A run over one tenant, up to its charges. */
  lemma BeginsAndQueries(p: Pricing, s: System, t: TenantId, cur: int, last: int)
    requires s.phase.Resting? && cur == BucketStart(s.clock) && last == LastBucket(s.watermark, cur) && last < cur
    ensures Next(p, Next(p, s, Begin([t])), Query)
         == s.(phase := Charging(cur, last, [], t, Totals(s.meter.stored, t, last, cur - BUCKET_SECS)),
               reached := if s.reached < cur then cur else s.reached)
  {
    assert [t][1..] == [];
  }

  // ---- a charge that straddles the watermark can be repeated ----

  /** A later reading of the clock, at least two minutes after `c`. */
  function Later(s: System, c: Charge): int {
    if s.clock < c.hi + 2 * BUCKET_SECS then c.hi + 2 * BUCKET_SECS else s.clock
  }

  /** The usage a run begun then would charge for `c`'s tenant. */
  ghost function RepeatTotals(s: System, c: Charge): map<Metric, nat> {
    Totals(s.meter.stored, c.tenant, s.watermark, BucketStart(Later(s, c)) - BUCKET_SECS)
  }

  /** No failure, and no clock reading before `now`. */
  predicate Undisturbed(events: seq<Event>, now: int) {
    forall i :: 0 <= i < |events| ==> !events[i].Fail? && (events[i].Clock? ==> now <= events[i].t)
  }

  // First, usage is recorded and flushed in the last minute of the charge.

  lemma {:induction false} Listing(keys: set<UsageKey>) returns (order: seq<UsageKey>)
    ensures forall i, j :: 0 <= i < j < |order| ==> order[i] != order[j]
    ensures forall k :: k in order <==> k in keys
    decreases |keys|
  {
    if keys == {} {
      order := [];
    } else {
      var k :| k in keys;
      var rest := Listing(keys - {k});
      order := rest + [k];
    }
  }

  /** A counter that is drained and accepted is in the store. */
  lemma DrainAndSettle(s: Metering.Meter, k: UsageKey) returns (e1: Metering.Event, e2: Metering.Event)
    requires k in s.pending
    ensures e1.Drain? && e2.Settle?
    ensures Amount(Metering.Next(Metering.Next(s, e1), e2).stored, k) >= s.pending[k]
  {
    var order := Listing(s.pending.Keys);
    assert Metering.Walks(order, s.pending);
    var i :| 0 <= i < |order| && order[i] == k;
    e1, e2 := Metering.Drain(order), Metering.Settle(|s.batch| + i, Metering.Accepted);
    var n := Metering.Next(s, e1);
    assert n.batch[|s.batch| + i] == Metering.Item(k, s.pending[k]);
  }

  lemma StoresUsage(p: Pricing, s: System, k: UsageKey, u: nat) returns (events: seq<Event>, n: System)
    requires u > 0
    ensures n == Run(p, s, events) && n == s.(meter := n.meter) && u <= Amount(n.meter.stored, k)
    ensures forall i :: 0 <= i < |events| ==> !events[i].Fail? && !events[i].Clock?
  {
    var m := Metering.Next(s.meter, Metering.Record(k, u));
    var e1, e2 := DrainAndSettle(m, k);
    RunThree(p, s, Metered(Metering.Record(k, u)), Metered(e1), Metered(e2));
    events := [Metered(Metering.Record(k, u)), Metered(e1), Metered(e2)];
    n := s.(meter := Metering.Next(Metering.Next(m, e1), e2));
  }

  /** The price rule behind a charge makes one unit of usage billable. */
  lemma UnitIsBillable(p: Pricing, c: Charge, total: nat)
    requires Genuine(p, c)
    ensures c.metric in p.rules && p.rules[c.metric].unitSize > 0
    ensures p.rules[c.metric].unitSize <= total ==> RateOf(p, c.metric, total) != 0
  {
    var rule := p.rules[c.metric];
    if rule.unitSize <= total {
      RawRateMonotone(rule.unitSize, rule.price, rule.unitSize, total);
      WholeUnit(rule.unitSize, rule.price);
    }
  }

  lemma WholeUnit(unitSize: int, price: int)
    requires unitSize > 0 && price > 0
    ensures Rate(unitSize, price, unitSize) > 0
  {
    QuotientOf(unitSize * price, unitSize, price, 0);
  }

  lemma KeyInTotals(stored: Amounts, k: UsageKey, lo: int, hi: int)
    requires k in stored && lo <= k.bucket <= hi
    ensures var totals := Totals(stored, k.tenant, lo, hi); k.metric in totals && stored[k] <= totals[k.metric]
  {
    var keys := KeysIn(stored, k.tenant, k.metric, lo, hi);
    TotalPick(keys, stored, k);
  }

  // Then the run after it charges that minute again.

  lemma RepeatQueries(p: Pricing, s: System, c: Charge) returns (events: seq<Event>, n: System)
    requires s.phase.Resting? && 0 < s.watermark <= c.hi
    ensures n == Run(p, s, events) && Undisturbed(events, s.clock)
    ensures n.phase == Charging(BucketStart(Later(s, c)), s.watermark, [], c.tenant, RepeatTotals(s, c))
    ensures n.charges == s.charges && n.book == s.book
  {
    var now := Later(s, c);
    var rest, m := QueriedRun(p, s.(clock := now), c.tenant, BucketStart(now), s.watermark);
    RunCons(p, s, Clock(now), rest);
    events, n := [Clock(now)] + rest, m;
  }

  lemma QueriedRun(p: Pricing, s: System, t: TenantId, cur: int, last: int) returns (events: seq<Event>, n: System)
    requires s.phase.Resting? && cur == BucketStart(s.clock) && last == LastBucket(s.watermark, cur) && last < cur
    ensures n == Run(p, s, events) && forall i :: 0 <= i < |events| ==> !events[i].Fail? && !events[i].Clock?
    ensures n.phase == Charging(cur, last, [], t, Totals(s.meter.stored, t, last, cur - BUCKET_SECS))
    ensures n.charges == s.charges && n.book == s.book
  {
    RunOne(p, s, Begin([t]));
    RunSnoc(p, s, [Begin([t])], Query);
    BeginsAndQueries(p, s, t, cur, last);
    events, n := [Begin([t])] + [Query], Next(p, Next(p, s, Begin([t])), Query);
  }

  lemma RepeatCharges(p: Pricing, n: System, c: Charge, id: nat)
    requires n.phase.Charging? && n.phase.tenant == c.tenant && c.metric in n.phase.totals
             && n.phase.last <= c.hi <= n.phase.cur - BUCKET_SECS
    requires c.lo <= c.hi && !c.metric.StorageBytes? && RateOf(p, c.metric, n.phase.totals[c.metric]) != 0
    requires id !in n.book.txns && !RefKnown(n.book, UsageRef(c.tenant, c.metric, n.phase.last, p.version))
    ensures var charges := Next(p, n, ChargeMetric(c.metric, true, id)).charges;
            && |charges| == |n.charges| + 1 && charges[..|n.charges|] == n.charges
            && charges[|n.charges|].lo <= c.hi <= charges[|n.charges|].hi && !Disjoint(c, charges[|n.charges|])
  {
    var m := Next(p, n, ChargeMetric(c.metric, true, id));
    assert m == DoCharge(p, n, c.metric, true, id);
    assert !Known(n.book, ChargeTxn(p, n.phase, c.metric, id));
  }

  lemma RepeatsCharge(p: Pricing, s: System, c: Charge, id: nat) returns (events: seq<Event>, n: System)
    requires s.phase.Resting? && 0 < s.watermark <= c.hi && Genuine(p, c)
    requires id !in s.book.txns && !RefKnown(s.book, UsageRef(c.tenant, c.metric, s.watermark, p.version))
    requires c.metric in RepeatTotals(s, c) && RateOf(p, c.metric, RepeatTotals(s, c)[c.metric]) != 0
    ensures n == Run(p, s, events) && Undisturbed(events, s.clock)
    ensures |n.charges| == |s.charges| + 1 && n.charges[..|s.charges|] == s.charges
    ensures n.charges[|s.charges|].lo <= c.hi <= n.charges[|s.charges|].hi && !Disjoint(c, n.charges[|s.charges|])
  {
    var init, m := RepeatQueries(p, s, c);
    RunSnoc(p, s, init, ChargeMetric(c.metric, true, id));
    RepeatCharges(p, m, c, id);
    events, n := init + [ChargeMetric(c.metric, true, id)], Next(p, m, ChargeMetric(c.metric, true, id));
  }

  /** There is something to bill once a unit is stored in the charge's last minute. */
  lemma StoredUnitRepeats(p: Pricing, s: System, c: Charge)
    requires s.watermark <= c.hi && Genuine(p, c) && c.metric in p.rules && 0 < p.rules[c.metric].unitSize
    requires p.rules[c.metric].unitSize <= Amount(s.meter.stored, UsageKey(c.tenant, None, c.metric, c.hi))
    ensures c.metric in RepeatTotals(s, c) && RateOf(p, c.metric, RepeatTotals(s, c)[c.metric]) != 0
  {
    var k := UsageKey(c.tenant, None, c.metric, c.hi);
    KeyInTotals(s.meter.stored, k, s.watermark, BucketStart(Later(s, c)) - BUCKET_SECS);
    UnitIsBillable(p, c, RepeatTotals(s, c)[c.metric]);
  }

  /** The converse of Charges.ChargesDisjoint, in every reachable state: once a completed run has left a charge out of
      place, some continuation without failures and with a clock that moves forward charges its last bucket again,
      provided the reference of the repeated window is free. */
  lemma OutOfPlaceIsChargedAgain(p: Pricing, book: Book, clock: int, before: seq<Event>, i: nat, id: nat)
    returns (events: seq<Event>, n: System)
    requires var s := Run(p, Start(book, clock), before);
             && s.phase.Resting? && 0 < s.watermark && id !in s.book.txns
             && i < |s.charges| && !Placed(s.watermark, s.charges[i])
             && !RefKnown(s.book, UsageRef(s.charges[i].tenant, s.charges[i].metric, s.watermark, p.version))
    ensures var s := Run(p, Start(book, clock), before);
            && n == Run(p, s, events) && Undisturbed(events, s.clock)
            && |n.charges| == |s.charges| + 1 && n.charges[..|s.charges|] == s.charges
            && !Disjoint(s.charges[i], n.charges[|s.charges|])
            && n.charges[|s.charges|].lo <= s.charges[i].hi <= n.charges[|s.charges|].hi
  {
    var s := Run(p, Start(book, clock), before);
    ChargesAreGenuine(p, book, clock, before);
    events, n := GenuineIsChargedAgain(p, s, s.charges[i], id);
  }

  lemma GenuineIsChargedAgain(p: Pricing, s: System, c: Charge, id: nat) returns (events: seq<Event>, n: System)
    requires s.phase.Resting? && 0 < s.watermark <= c.hi && Genuine(p, c) && id !in s.book.txns
    requires !RefKnown(s.book, UsageRef(c.tenant, c.metric, s.watermark, p.version))
    ensures n == Run(p, s, events) && Undisturbed(events, s.clock)
    ensures |n.charges| == |s.charges| + 1 && n.charges[..|s.charges|] == s.charges
    ensures n.charges[|s.charges|].lo <= c.hi <= n.charges[|s.charges|].hi && !Disjoint(c, n.charges[|s.charges|])
  {
    UnitIsBillable(p, c, 0);
    var stores, m := StoresUsage(p, s, UsageKey(c.tenant, None, c.metric, c.hi), p.rules[c.metric].unitSize);
    StoredUnitRepeats(p, m, c);
    var repeats, r := RepeatsCharge(p, m, c, id);
    RunConcat(p, s, stores, repeats);
    events, n := stores + repeats, r;
  }

  // ---- and such a state is reachable ----

  function UnitPrice(m: Metric): Pricing { Pricing(1, map[m := Rule(1, 1)]) }

  // ---- usage in minute 540 reaches the store ----

  function Minute(t: TenantId, m: Metric): UsageKey { UsageKey(t, None, m, 540) }

  function Metered540(t: TenantId, m: Metric, u: nat): Metering.Meter {
    Metering.Meter(map[Minute(t, m) := u], map[], [], map[Minute(t, m) := u], map[])
  }

  function StoreEvents(t: TenantId, m: Metric, u: nat): seq<Event> {
    [Metered(Metering.Record(Minute(t, m), u)), Metered(Metering.Drain([Minute(t, m)])),
      Metered(Metering.Settle(0, Metering.Accepted))]
  }

  lemma Stores(p: Pricing, s: System, t: TenantId, m: Metric, u: nat)
    requires s.meter == Metering.Empty() && u > 0
    ensures Run(p, s, StoreEvents(t, m, u)) == s.(meter := Metered540(t, m, u))
  {
    var ev, k := StoreEvents(t, m, u), Minute(t, m);
    RunThree(p, s, ev[0], ev[1], ev[2]);
    var one := map[k := u];
    assert Add(map[], k, u) == one;
    assert Metering.Walks([k], one);
    assert Metering.Items(one, [k]) == [Metering.Item(k, u)];
    assert [] + [Metering.Item(k, u)] == [Metering.Item(k, u)];
  }

  // ---- a run over that minute ----

  lemma SingleWindow(t: TenantId, m: Metric, u: nat, lo: int, hi: int)
    requires lo <= 540 <= hi
    ensures Totals(map[Minute(t, m) := u], t, lo, hi) == map[m := u]
  {
    var k, stored := Minute(t, m), map[Minute(t, m) := u];
    assert KeysIn(stored, t, m, lo, hi) == {k};
    TotalPick({k}, stored, k);
    assert {k} - {k} == {};
    assert k in stored && k.metric == m;
  }

  function AttemptEvents(t: TenantId, m: Metric, id: nat): seq<Event> { [Begin([t]), Query, ChargeMetric(m, true, id)] }

  function AttemptTxn(t: TenantId, m: Metric, u: nat, last: int, id: nat): Txn {
    Txn(id, t, UsageCharge, 0 - u, Some(1), Some(UsageRef(t, m, last, 1)), None)
  }

  function Queried(s: System, t: TenantId, m: Metric, u: nat, cur: int, last: int): System {
    s.(phase := Charging(cur, last, [], t, map[m := u]), reached := if s.reached < cur then cur else s.reached)
  }

  function Charged(n: System, t: TenantId, m: Metric, u: nat, id: nat): System
    requires n.phase.Charging?
  {
    n.(phase := n.phase.(totals := map[]), book := Append(n.book, AttemptTxn(t, m, u, n.phase.last, id)),
       charges := n.charges + [Charge(t, m, n.phase.last, n.phase.cur - BUCKET_SECS, u, u)])
  }

  function Attempted(s: System, t: TenantId, m: Metric, u: nat, cur: int, last: int, id: nat): System {
    Charged(Queried(s, t, m, u, cur, last), t, m, u, id)
  }

  lemma ChargesUnit(n: System, t: TenantId, m: Metric, u: nat, id: nat)
    requires 0 < u < I64_MAX && !m.StorageBytes? && n.phase.Charging? && n.phase.tenant == t
             && n.phase.totals == map[m := u]
    requires id !in n.book.txns && UsageRef(t, m, n.phase.last, 1) !in n.book.byRef
    ensures Next(UnitPrice(m), n, ChargeMetric(m, true, id)) == Charged(n, t, m, u, id)
  {
    var p := UnitPrice(m);
    assert RateOf(p, m, u) == u;
    assert ChargeTxn(p, n.phase, m, id) == AttemptTxn(t, m, u, n.phase.last, id);
    assert map[m := u] - {m} == map[];
    assert Next(p, n, ChargeMetric(m, true, id)) == DoCharge(p, n, m, true, id);
  }

  lemma Queries(p: Pricing, s: System, t: TenantId, m: Metric, u: nat, cur: int, last: int)
    requires s.phase.Resting? && s.meter.stored == map[Minute(t, m) := u]
    requires cur == BucketStart(s.clock) && last == LastBucket(s.watermark, cur) && last <= 540 <= cur - BUCKET_SECS
    ensures Next(p, Next(p, s, Begin([t])), Query) == Queried(s, t, m, u, cur, last)
  {
    BeginsAndQueries(p, s, t, cur, last);
    SingleWindow(t, m, u, last, cur - BUCKET_SECS);
  }

  lemma Attempts(s: System, t: TenantId, m: Metric, u: nat, cur: int, last: int, id: nat)
    requires s.phase.Resting? && s.meter.stored == map[Minute(t, m) := u] && 0 < u < I64_MAX && !m.StorageBytes?
    requires cur == BucketStart(s.clock) && last == LastBucket(s.watermark, cur) && last <= 540 <= cur - BUCKET_SECS
    requires id !in s.book.txns && UsageRef(t, m, last, 1) !in s.book.byRef
    ensures Run(UnitPrice(m), s, AttemptEvents(t, m, id)) == Attempted(s, t, m, u, cur, last, id)
  {
    var p, e := UnitPrice(m), ChargeMetric(m, true, id);
    var n := QueriesRun(p, s, t, m, u, cur, last);
    RunSnoc(p, s, [Begin([t]), Query], e);
    assert [Begin([t]), Query] + [e] == AttemptEvents(t, m, id);
    ChargesUnit(n, t, m, u, id);
  }

  lemma QueriesRun(p: Pricing, s: System, t: TenantId, m: Metric, u: nat, cur: int, last: int) returns (n: System)
    requires s.phase.Resting? && s.meter.stored == map[Minute(t, m) := u]
    requires cur == BucketStart(s.clock) && last == LastBucket(s.watermark, cur) && last <= 540 <= cur - BUCKET_SECS
    ensures n == Run(p, s, [Begin([t]), Query])
    ensures n == Queried(s, t, m, u, cur, last)
  {
    RunOne(p, s, Begin([t]));
    RunSnoc(p, s, [Begin([t])], Query);
    assert [Begin([t])] + [Query] == [Begin([t]), Query];
    Queries(p, s, t, m, u, cur, last);
    n := Next(p, Next(p, s, Begin([t])), Query);
  }

  // ---- the whole run ----

  function Events(t: TenantId, m: Metric, u: nat): seq<Event> {
    StoreEvents(t, m, u) + (AttemptEvents(t, m, 1)
    + ([NextTenant, Fail, Clock(500)] + ([Begin([]), Finish, Clock(660)] + AttemptEvents(t, m, 2))))
  }

  function FirstBook(t: TenantId, m: Metric, u: nat): Book { Append(EmptyBook(), AttemptTxn(t, m, u, 540, 1)) }

  /** After the retreat: minute 540 is charged, and the watermark is 480. */
  function Retreated(t: TenantId, m: Metric, u: nat): System {
    System(Metered540(t, m, u), 660, 480, Resting, FirstBook(t, m, u), 600, [Charge(t, m, 540, 540, u, u)],
      [Window(420, 420)])
  }

  function FirstCharged(t: TenantId, m: Metric, u: nat): System {
    Attempted(Start(EmptyBook(), 600).(meter := Metered540(t, m, u)), t, m, u, 600, 540, 1)
  }

  lemma FailsAndRetreats(t: TenantId, m: Metric, u: nat)
    ensures Run(UnitPrice(m), FirstCharged(t, m, u), [NextTenant, Fail, Clock(500)])
            == FirstCharged(t, m, u).(phase := Resting, clock := 500)
  {
    RunThree(UnitPrice(m), FirstCharged(t, m, u), NextTenant, Fail, Clock(500));
  }

  lemma CompletesBehind(t: TenantId, m: Metric, u: nat)
    ensures Run(UnitPrice(m), FirstCharged(t, m, u).(phase := Resting, clock := 500), [Begin([]), Finish, Clock(660)])
            == Retreated(t, m, u)
  {
    var r := FirstCharged(t, m, u).(phase := Resting, clock := 500);
    RunThree(UnitPrice(m), r, Begin([]), Finish, Clock(660));
    assert BucketStart(500) == 480;
    assert [] + [Charge(t, m, 540, 540, u, u)] == [Charge(t, m, 540, 540, u, u)];
    assert [] + [Window(420, 420)] == [Window(420, 420)];
  }

  lemma RunsTo(t: TenantId, m: Metric, u: nat)
    requires 0 < u < I64_MAX && !m.StorageBytes?
    ensures Run(UnitPrice(m), Start(EmptyBook(), 600), Events(t, m, u))
            == Attempted(Retreated(t, m, u), t, m, u, 660, 480, 2)
  {
    var p, s0 := UnitPrice(m), Start(EmptyBook(), 600);
    var b, c, d, e :=
      AttemptEvents(t, m, 1), [NextTenant, Fail, Clock(500)], [Begin([]), Finish, Clock(660)], AttemptEvents(t, m, 2);
    var s3 := s0.(meter := Metered540(t, m, u));
    Stores(p, s0, t, m, u);
    RunConcat(p, s0, StoreEvents(t, m, u), b + (c + (d + e)));
    Attempts(s3, t, m, u, 600, 540, 1);
    RunConcat(p, s3, b, c + (d + e));
    RunConcat(p, FirstCharged(t, m, u), c, d + e);
    FailsAndRetreats(t, m, u);
    RunConcat(p, FirstCharged(t, m, u).(phase := Resting, clock := 500), d, e);
    CompletesBehind(t, m, u);
    SecondAttempt(t, m, u);
  }

  /** For every tenant, metric and amount, there is a run in which usage recorded once is charged twice. */
  lemma ClockStepBackChargesTwice(t: TenantId, m: Metric, u: nat)
    requires 0 < u < I64_MAX && !m.StorageBytes?
    ensures var s := Run(UnitPrice(m), Start(EmptyBook(), 600), Events(t, m, u));
            && s.meter.recorded == map[Minute(t, m) := u] && s.meter.replayed == map[]
            && s.charges == [Charge(t, m, 540, 540, u, u), Charge(t, m, 480, 600, u, u)]
            && Spent(s.book.entries, t, m, 1) == 2 * u
  {
    RunsTo(t, m, u);
    LedgerHoldsCharges(UnitPrice(m), EmptyBook(), 600, Events(t, m, u), t, m);
    TwoCharges(t, m, u);
  }

  lemma SecondAttempt(t: TenantId, m: Metric, u: nat)
    requires 0 < u < I64_MAX && !m.StorageBytes?
    ensures Run(UnitPrice(m), Retreated(t, m, u), AttemptEvents(t, m, 2))
            == Attempted(Retreated(t, m, u), t, m, u, 660, 480, 2)
  {
    if UsageRef(t, m, 480, 1) == UsageRef(t, m, 540, 1) { UsageRefInjective(t, m, 480, 1, t, m, 540, 1); }
    Attempts(Retreated(t, m, u), t, m, u, 660, 480, 2);
  }

  lemma TwoCharges(t: TenantId, m: Metric, u: nat)
    ensures CreditsOf([Charge(t, m, 540, 540, u, u), Charge(t, m, 480, 600, u, u)], t, m) == 2 * u
  {
    var a, b := Charge(t, m, 540, 540, u, u), Charge(t, m, 480, 600, u, u);
    CreditsSnoc([], a, t, m);
    CreditsSnoc([a], b, t, m);
    assert [] + [a] == [a] && [a] + [b] == [a, b];
  }
}
