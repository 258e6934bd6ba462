/** From recorded usage to the ledger: the settlement run of crates/api-server/src/settlement.rs interleaved
    with metering (crates/api-server/src/usage.rs) and with other ledger traffic (crates/metadata/src/store.rs),
    for one settlement instance and one price version. */
module Settlement {
  import opened Base
  import opened Usage
  import opened Rating
  import opened Ledger
  import Decimal
  import Metering

  datatype Rule = Rule(unitSize: int, price: int)

  datatype Pricing = Pricing(version: int, rules: map<Metric, Rule>)

  function RateOf(p: Pricing, m: Metric, units: nat): int {
    if m in p.rules then Rate(p.rules[m].unitSize, p.rules[m].price, units) else 0
  }

  /** The price before the cap at i64::MAX. */
  function RawRateOf(p: Pricing, m: Metric, units: nat): nat {
    if m in p.rules then RawRate(p.rules[m].unitSize, p.rules[m].price, units) else 0
  }

  // ---- references ----

  function UsageRef(t: TenantId, m: Metric, last: int, version: int): string {
    "usage:" + (t + ":" + (MetricName(m) + ":" + (Decimal.PrintInt(last) + ":" + Decimal.PrintInt(version))))
  }

  /** Charges of different tenants, metrics, windows or price versions never share a reference. */
  lemma UsageRefInjective(t1: TenantId, m1: Metric, l1: int, v1: int, t2: TenantId, m2: Metric, l2: int, v2: int)
    requires UsageRef(t1, m1, l1, v1) == UsageRef(t2, m2, l2, v2)
    ensures t1 == t2 && m1 == m2 && l1 == l2 && v1 == v2
  {
    var d1, d2 := Decimal.PrintInt(l1), Decimal.PrintInt(l2);
    var r1, r2 := d1 + ":" + Decimal.PrintInt(v1), d2 + ":" + Decimal.PrintInt(v2);
    var q1, q2 := MetricName(m1) + ":" + r1, MetricName(m2) + ":" + r2;
    var p1, p2 := t1 + ":" + q1, t2 + ":" + q2;
    assert UsageRef(t1, m1, l1, v1)[6..] == p1 && UsageRef(t2, m2, l2, v2)[6..] == p2;
    SplitAt(':', t1, q1, t2, q2);
    MetricRoundTrip(m1);
    MetricRoundTrip(m2);
    SplitAt(':', MetricName(m1), r1, MetricName(m2), r2);
    NoColonInNumbers(l1);
    NoColonInNumbers(l2);
    SplitAt(':', d1, Decimal.PrintInt(v1), d2, Decimal.PrintInt(v2));
    Decimal.PrintIntInjective(l1, l2);
    Decimal.PrintIntInjective(v1, v2);
  }

  lemma NoColonInNumbers(n: int)
    ensures ':' !in Decimal.PrintInt(n)
  {
    if ':' in Decimal.PrintInt(n) { Decimal.PrintIntChars(n, ':'); }
  }

  // ---- windows ----

  ghost function KeysIn(stored: Amounts, t: TenantId, m: Metric, lo: int, hi: int): set<UsageKey> {
    set k | k in stored && k.tenant == t && k.metric == m && lo <= k.bucket <= hi
  }

  /** Per metric, the usage of one tenant in a window, over all its Cells. */
  ghost function Totals(stored: Amounts, t: TenantId, lo: int, hi: int): map<Metric, nat> {
    map m | m in (set k | k in stored && k.tenant == t && lo <= k.bucket <= hi :: k.metric)
      :: Total(KeysIn(stored, t, m, lo, hi), stored)
  }

  datatype Charge = Charge(tenant: TenantId, metric: Metric, lo: int, hi: int, total: nat, credits: int)

  datatype Window = Window(lo: int, hi: int)

  /** A settlement run: `cur` is the minute it began in, `last` the first bucket it settles. */
  datatype Phase =
    | Resting
    | Walking(cur: int, last: int, todo: seq<TenantId>)
    | Charging(cur: int, last: int, todo: seq<TenantId>, tenant: TenantId, totals: map<Metric, nat>)

  /** `reached` is the latest minute any run has begun in; `charges` and `completed` are history. */
  datatype System = System(meter: Metering.Meter, clock: int, watermark: int, phase: Phase, book: Book,
                           reached: int, charges: seq<Charge>, completed: seq<Window>)

  datatype Event =
    | Metered(e: Metering.Event)
    | Clock(t: int)
    | Begin(tenants: seq<TenantId>)
    | Query
    | ChargeMetric(metric: Metric, ok: bool, id: nat)
    | NextTenant
    | Finish
    | Fail
    | Other(op: Op)

  function LastBucket(watermark: int, cur: int): int { if watermark == 0 then cur - BUCKET_SECS else watermark }

  function ChargeTxn(p: Pricing, ph: Phase, m: Metric, id: nat): Txn
    requires ph.Charging? && m in ph.totals
  {
    Txn(id, ph.tenant, UsageCharge, -RateOf(p, m, ph.totals[m]), Some(p.version),
        Some(UsageRef(ph.tenant, m, ph.last, p.version)), None)
  }

  /** One metric of one tenant: the gauge and zero charges are skipped, a refused append changes nothing, a
      known reference is returned as it is. */
  function DoCharge(p: Pricing, s: System, m: Metric, ok: bool, id: nat): System
    requires s.phase.Charging? && m in s.phase.totals
  {
    var ph := s.phase;
    var n := s.(phase := ph.(totals := ph.totals - {m}));
    if m.StorageBytes? || RateOf(p, m, ph.totals[m]) == 0 || !ok then n
    else
      var txn := ChargeTxn(p, ph, m, id);
      var charge := Charge(ph.tenant, m, ph.last, ph.cur - BUCKET_SECS, ph.totals[m], RateOf(p, m, ph.totals[m]));
      n.(book := Append(s.book, txn), charges := if Known(s.book, txn) then s.charges else s.charges + [charge])
  }

  ghost predicate FreshOp(b: Book, op: Op) {
    match op
    case DoAppend(txn) => txn.id !in b.txns && !txn.kind.UsageCharge?
    case DoRedeem(_, _, _, id) => id !in b.txns
    case DoIssue(_, _) => true
  }

  ghost function Next(p: Pricing, s: System, e: Event): System {
    match e
    case Metered(m) => s.(meter := Metering.Next(s.meter, m))
    case Clock(t) => if t >= 0 then s.(clock := t) else s
    case Begin(tenants) =>
      var cur := BucketStart(s.clock);
      var last := LastBucket(s.watermark, cur);
      if s.phase.Resting? && last < cur then
        s.(phase := Walking(cur, last, tenants), reached := if s.reached < cur then cur else s.reached)
      else s
    case Query =>
      if s.phase.Walking? && s.phase.todo != [] then
        var t := s.phase.todo[0];
        s.(phase := Charging(s.phase.cur, s.phase.last, s.phase.todo[1..], t,
                             Totals(s.meter.stored, t, s.phase.last, s.phase.cur - BUCKET_SECS)))
      else s
    case ChargeMetric(m, ok, id) =>
      if s.phase.Charging? && m in s.phase.totals && id !in s.book.txns then DoCharge(p, s, m, ok, id) else s
    case NextTenant =>
      if s.phase.Charging?
        && s.phase.totals == map[] then s.(phase := Walking(s.phase.cur, s.phase.last, s.phase.todo)) else s
    case Finish =>
      if s.phase.Walking? && s.phase.todo == [] then
        s.(phase := Resting, watermark := s.phase.cur,
           completed := s.completed + [Window(s.phase.last, s.phase.cur - BUCKET_SECS)])
      else s
    case Fail => if s.phase.Walking? then s.(phase := Resting) else s
    case Other(op) => if FreshOp(s.book, op) then s.(book := Apply(s.book, op)) else s
  }

  ghost function Run(p: Pricing, s: System, events: seq<Event>): System
    decreases |events|
  {
    if events == [] then s else Next(p, Run(p, s, events[..|events| - 1]), events[|events| - 1])
  }

  lemma RunSnoc(p: Pricing, s: System, events: seq<Event>, e: Event)
    ensures Run(p, s, events + [e]) == Next(p, Run(p, s, events), e)
  {
    assert (events + [e])[..|events|] == events;
  }

  lemma {:induction false} RunConcat(p: Pricing, s: System, a: seq<Event>, b: seq<Event>)
    ensures Run(p, s, a + b) == Run(p, Run(p, s, a), b)
    decreases |b|
  {
    if b == [] {
      assert a + b == a;
    } else {
      RunConcat(p, s, a, b[..|b| - 1]);
      assert (a + b)[..|a + b| - 1] == a + b[..|b| - 1];
    }
  }

  lemma RunOne(p: Pricing, s: System, e: Event)
    ensures Run(p, s, [e]) == Next(p, s, e)
  {
    assert [e][..0] == [];
  }

  lemma RunCons(p: Pricing, s: System, e: Event, events: seq<Event>)
    ensures Run(p, s, [e] + events) == Run(p, Next(p, s, e), events)
  {
    RunConcat(p, s, [e], events);
    RunOne(p, s, e);
  }

  /** Nothing settled yet, nothing metered yet, and a book without usage charges. */
  function Start(book: Book, clock: int): System {
    System(Metering.Empty(), clock, 0, Resting, book, 0, [], [])
  }

  predicate NoCharges(entries: seq<Txn>) { forall i :: 0 <= i < |entries| ==> !entries[i].kind.UsageCharge? }

  // ---- completed windows tile, whatever the clock does ----

  ghost predicate Tiled(s: System) {
    && 0 <= s.clock && 0 <= s.watermark
    && (!s.phase.Resting? ==>
        0 <= s.phase.cur && s.phase.last == LastBucket(s.watermark, s.phase.cur) && s.phase.last < s.phase.cur)
    && (s.completed != [] ==> s.watermark == s.completed[|s.completed| - 1].hi + BUCKET_SECS)
    && (s.completed == [] ==> s.watermark == 0)
    && (s.completed != [] ==> s.completed[0].lo == s.completed[0].hi)
    && (forall i :: 0 <= i < |s.completed| - 1 ==> TileAt(s.completed, i))
  }

  /** The next completed window starts in the bucket after this one. The exception is a run in the first
      minute of 1970: its watermark 0 reads as "no run yet". */
  predicate TileAt(completed: seq<Window>, i: nat)
    requires i + 1 < |completed|
  {
    completed[i].hi + BUCKET_SECS == 0 || completed[i + 1].lo == completed[i].hi + BUCKET_SECS
  }

  lemma TiledNext(p: Pricing, s: System, e: Event)
    requires Tiled(s)
    ensures Tiled(Next(p, s, e))
  {
    var n := Next(p, s, e);
    if e.Finish? && s.phase.Walking? && s.phase.todo == [] {
      forall i | 0 <= i < |n.completed| - 1 ensures TileAt(n.completed, i) {
        if i < |s.completed| - 1 { assert TileAt(s.completed, i); }
      }
    } else {
      assert n.completed == s.completed;
      forall i | 0 <= i < |n.completed| - 1 ensures TileAt(n.completed, i) { assert TileAt(s.completed, i); }
    }
  }

  /** For any sequence of clock readings, the first completed run settles the one minute before it began, and the
      windows of completed runs follow each other without gap or overlap. */
  lemma {:induction false} CompletedWindowsTile(p: Pricing, book: Book, clock: nat, events: seq<Event>)
    ensures Tiled(Run(p, Start(book, clock), events))
    decreases |events|
  {
    if events != [] {
      CompletedWindowsTile(p, book, clock, events[..|events| - 1]);
      TiledNext(p, Run(p, Start(book, clock), events[..|events| - 1]), events[|events| - 1]);
    }
  }
}
