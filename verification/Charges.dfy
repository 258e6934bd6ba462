/** What a tenant is charged over a whole run of metering and settlement. */
module Charges {
  import opened Base
  import opened Usage
  import opened Rating
  import opened Ledger
  import opened Settlement
  import Metering

  // ---- the ledger holds exactly the recorded charges ----

  ghost predicate IsChargeOf(x: Txn, t: TenantId, m: Metric, version: int) {
    x.kind.UsageCharge? && x.tenant == t && exists last :: x.reference == Some(UsageRef(t, m, last, version))
  }

  /** Credits taken from a tenant for a metric, read off the ledger. */
  ghost function Spent(entries: seq<Txn>, t: TenantId, m: Metric, version: int): int {
    if entries == [] then 0
    else
      var x := entries[|entries| - 1];
      Spent(entries[..|entries| - 1], t, m, version) - if IsChargeOf(x, t, m, version) then x.amount else 0
  }

  function CreditsOf(charges: seq<Charge>, t: TenantId, m: Metric): int {
    if charges == [] then 0
    else
      var c := charges[|charges| - 1];
      CreditsOf(charges[..|charges| - 1], t, m) + if c.tenant == t && c.metric == m then c.credits else 0
  }

  lemma SpentSnoc(entries: seq<Txn>, x: Txn, t: TenantId, m: Metric, version: int)
    ensures Spent(entries + [x], t, m, version)
         == Spent(entries, t, m, version) - if IsChargeOf(x, t, m, version) then x.amount else 0
  {
    assert (entries + [x])[..|entries|] == entries;
  }

  lemma CreditsSnoc(charges: seq<Charge>, c: Charge, t: TenantId, m: Metric)
    ensures CreditsOf(charges + [c], t, m)
         == CreditsOf(charges, t, m) + if c.tenant == t && c.metric == m then c.credits else 0
  {
    assert (charges + [c])[..|charges|] == charges;
  }

  lemma {:induction false} NothingSpent(entries: seq<Txn>, t: TenantId, m: Metric, version: int)
    requires NoCharges(entries)
    ensures Spent(entries, t, m, version) == 0
  {
    if entries != [] { NothingSpent(entries[..|entries| - 1], t, m, version); }
  }

  lemma ChargeTxnIsOf(p: Pricing, b: Book, ph: Phase, m: Metric, id: nat, t: TenantId, metric: Metric)
    requires ph.Charging? && m in ph.totals
    ensures IsChargeOf(Booked(b, ChargeTxn(p, ph, m, id)), t, metric, p.version) <==> ph.tenant == t && m == metric
  {
    var x := Booked(b, ChargeTxn(p, ph, m, id));
    if ph.tenant == t && m == metric {
      assert x.reference == Some(UsageRef(t, metric, ph.last, p.version));
    } else if IsChargeOf(x, t, metric, p.version) {
      var last :| x.reference == Some(UsageRef(t, metric, last, p.version));
      UsageRefInjective(ph.tenant, m, ph.last, p.version, t, metric, last, p.version);
    }
  }

  lemma OtherSpends(b: Book, op: Op, t: TenantId, m: Metric, version: int)
    requires FreshOp(b, op)
    ensures Spent(Apply(b, op).entries, t, m, version) == Spent(b.entries, t, m, version)
  {
    match op {
      case DoAppend(txn) => SpentSnoc(b.entries, Booked(b, txn), t, m, version);
      case DoRedeem(hash, tenant, now, id) =>
        if Redeemable(b, hash, now) { SpentSnoc(b.entries, Booked(b, VoucherTxn(b, hash, tenant, id)), t, m, version); }
      case DoIssue(_, _) =>
    }
  }

  lemma ChargeSpends(p: Pricing, s: System, metric: Metric, ok: bool, id: nat, t: TenantId, m: Metric)
    requires s.phase.Charging? && metric in s.phase.totals
    requires Spent(s.book.entries, t, m, p.version) == CreditsOf(s.charges, t, m)
    ensures var n := DoCharge(p, s, metric, ok, id);
            Spent(n.book.entries, t, m, p.version) == CreditsOf(n.charges, t, m)
  {
    var n := DoCharge(p, s, metric, ok, id);
    if n.charges != s.charges {
      var x := Booked(s.book, ChargeTxn(p, s.phase, metric, id));
      SpentSnoc(s.book.entries, x, t, m, p.version);
      CreditsSnoc(s.charges, n.charges[|s.charges|], t, m);
      ChargeTxnIsOf(p, s.book, s.phase, metric, id, t, m);
    }
  }

  lemma NextSpends(p: Pricing, s: System, e: Event, t: TenantId, m: Metric)
    requires Spent(s.book.entries, t, m, p.version) == CreditsOf(s.charges, t, m)
    ensures var n := Next(p, s, e); Spent(n.book.entries, t, m, p.version) == CreditsOf(n.charges, t, m)
  {
    if e.ChargeMetric? && s.phase.Charging? && e.metric in s.phase.totals {
      ChargeSpends(p, s, e.metric, e.ok, e.id, t, m);
    } else if e.Other? && FreshOp(s.book, e.op) {
      OtherSpends(s.book, e.op, t, m, p.version);
    }
  }

  /** The ledger's usage entries and the recorded charges agree after every run. */
  lemma {:induction false} LedgerHoldsCharges(p: Pricing, book: Book, clock: int, events: seq<Event>, t: TenantId,
                                              m: Metric)
    requires NoCharges(book.entries)
    ensures var s := Run(p, Start(book, clock), events);
            Spent(s.book.entries, t, m, p.version) == CreditsOf(s.charges, t, m)
    decreases |events|
  {
    if events == [] {
      NothingSpent(book.entries, t, m, p.version);
    } else {
      LedgerHoldsCharges(p, book, clock, events[..|events| - 1], t, m);
      NextSpends(p, Run(p, Start(book, clock), events[..|events| - 1]), events[|events| - 1], t, m);
    }
  }

  // ---- charged windows never overlap ----

  predicate RefKnown(b: Book, r: string) { r in b.byRef && b.byRef[r] in b.txns }

  predicate Disjoint(c: Charge, d: Charge) {
    c.tenant == d.tenant && c.metric == d.metric ==> c.hi < d.lo || d.hi < c.lo
  }

  ghost function WindowTotal(stored: Amounts, t: TenantId, m: Metric, lo: int, hi: int): nat {
    Total(KeysIn(stored, t, m, lo, hi), stored)
  }

  /** Where a charge may lie: before the watermark, or it is the charge of the window the next run repeats. Until
      a run has completed, every attempt settles the one minute before it. */
  predicate Placed(watermark: int, c: Charge) {
    if watermark == 0 then c.lo == c.hi else c.hi < watermark || c.lo == watermark
  }

  ghost predicate ChargeOk(p: Pricing, s: System, c: Charge) {
    && RefKnown(s.book, UsageRef(c.tenant, c.metric, c.lo, p.version))
    && c.total <= WindowTotal(s.meter.stored, c.tenant, c.metric, c.lo, c.hi)
    && c.credits == RateOf(p, c.metric, c.total)
    && Placed(s.watermark, c)
  }

  ghost predicate PhaseOk(s: System) {
    (s.phase.Charging? ==> forall m :: m in s.phase.totals ==>
          s.phase.totals[m] <= WindowTotal(s.meter.stored, s.phase.tenant, m, s.phase.last, s.phase.cur - BUCKET_SECS))
  }

  ghost predicate Inv(p: Pricing, s: System) {
    && Tiled(s) && PhaseOk(s)
    && (forall i :: 0 <= i < |s.charges| ==> ChargeOk(p, s, s.charges[i]))
    && (forall i, j :: 0 <= i < j < |s.charges| ==> Disjoint(s.charges[i], s.charges[j]))
  }

  /** A run completes only with every charge before its new watermark or at it: no earlier attempt that failed
      had charged a later minute. */
  predicate Steady(s: System, e: Event) {
    e.Finish? && s.phase.Walking? && s.phase.todo == [] ==>
      forall i :: 0 <= i < |s.charges| ==> Placed(s.phase.cur, s.charges[i])
  }

  lemma WindowGrows(s: Metering.Meter, e: Metering.Event, t: TenantId, m: Metric, lo: int, hi: int)
    ensures WindowTotal(s.stored, t, m, lo, hi) <= WindowTotal(Metering.Next(s, e).stored, t, m, lo, hi)
  {
    var was, now := s.stored, Metering.Next(s, e).stored;
    var keys := KeysIn(was, t, m, lo, hi);
    forall k | k in keys ensures Amount(was, k) <= Amount(now, k) + Amount(map[], k) { Metering.StoredGrows(s, e, k); }
    TotalBound(keys, was, now, map[]);
    TotalAbsent(keys, map[]);
    forall k | k in keys ensures k in KeysIn(now, t, m, lo, hi) { Metering.StoredGrows(s, e, k); }
    TotalSubset(keys, KeysIn(now, t, m, lo, hi), now);
  }

  lemma RefsStay(b: Book, op: Op, r: string)
    requires RefKnown(b, r)
    ensures RefKnown(Apply(b, op), r)
  {
  }

  lemma ChargeOkGrows(p: Pricing, s: System, e: Metering.Event, c: Charge)
    requires ChargeOk(p, s, c)
    ensures ChargeOk(p, s.(meter := Metering.Next(s.meter, e)), c)
  {
    WindowGrows(s.meter, e, c.tenant, c.metric, c.lo, c.hi);
  }

  lemma PhaseOkGrows(s: System, e: Metering.Event)
    requires PhaseOk(s)
    ensures PhaseOk(s.(meter := Metering.Next(s.meter, e)))
  {
    var n := s.(meter := Metering.Next(s.meter, e));
    if s.phase.Charging? {
      forall m | m in n.phase.totals
        ensures n.phase.totals[m]
                <= WindowTotal(n.meter.stored, n.phase.tenant, m, n.phase.last, n.phase.cur - BUCKET_SECS)
      {
        WindowGrows(s.meter, e, s.phase.tenant, m, s.phase.last, s.phase.cur - BUCKET_SECS);
      }
    }
  }

  lemma MeteredKeeps(p: Pricing, s: System, e: Metering.Event)
    requires Inv(p, s)
    ensures Inv(p, Next(p, s, Metered(e)))
  {
    TiledNext(p, s, Metered(e));
    PhaseOkGrows(s, e);
    var n := s.(meter := Metering.Next(s.meter, e));
    forall i | 0 <= i < |n.charges| ensures ChargeOk(p, n, n.charges[i]) { ChargeOkGrows(p, s, e, s.charges[i]); }
  }

  /** The charge a settlement step adds is disjoint from all earlier ones of its tenant and metric. */
  lemma NewChargeDisjoint(p: Pricing, s: System, m: Metric, id: nat, c: Charge)
    requires Inv(p, s) && s.phase.Charging? && m in s.phase.totals
    requires !Known(s.book, ChargeTxn(p, s.phase, m, id))
    requires ChargeOk(p, s, c)
    ensures Disjoint(c, Charge(s.phase.tenant, m, s.phase.last, s.phase.cur - BUCKET_SECS, s.phase.totals[m], 0))
  {
    if c.tenant == s.phase.tenant && c.metric == m {
      assert c.lo != s.phase.last;
    }
  }

  lemma ChargeStays(p: Pricing, s: System, m: Metric, ok: bool, id: nat, c: Charge)
    requires Inv(p, s) && s.phase.Charging? && m in s.phase.totals && ChargeOk(p, s, c)
    ensures ChargeOk(p, DoCharge(p, s, m, ok, id), c)
  {
  }

  lemma NewChargePlaced(s: System, c: Charge)
    requires Tiled(s) && s.phase.Charging? && c.lo == s.phase.last && c.hi == s.phase.cur - BUCKET_SECS
    ensures Placed(s.watermark, c)
  {
  }

  lemma NewChargeKnown(p: Pricing, s: System, m: Metric, id: nat)
    requires s.phase.Charging? && m in s.phase.totals
    ensures RefKnown(Append(s.book, ChargeTxn(p, s.phase, m, id)), UsageRef(s.phase.tenant, m, s.phase.last, p.version))
  {
  }

  lemma NewChargeOk(p: Pricing, s: System, m: Metric, ok: bool, id: nat)
    requires Tiled(s) && PhaseOk(s) && s.phase.Charging? && m in s.phase.totals
    requires DoCharge(p, s, m, ok, id).charges != s.charges
    ensures var n := DoCharge(p, s, m, ok, id);
            |n.charges| == |s.charges| + 1 && ChargeOk(p, n, n.charges[|s.charges|])
  {
    NewChargePlaced(s, DoCharge(p, s, m, ok, id).charges[|s.charges|]);
    NewChargeKnown(p, s, m, id);
  }

  lemma ChargesStay(p: Pricing, s: System, m: Metric, ok: bool, id: nat)
    requires Inv(p, s) && s.phase.Charging? && m in s.phase.totals
    ensures var n := DoCharge(p, s, m, ok, id);
            forall i :: 0 <= i < |n.charges| ==> ChargeOk(p, n, n.charges[i])
  {
    var n := DoCharge(p, s, m, ok, id);
    forall i | 0 <= i < |n.charges| ensures ChargeOk(p, n, n.charges[i]) {
      if i < |s.charges| {
        ChargeStays(p, s, m, ok, id, s.charges[i]);
      } else {
        NewChargeOk(p, s, m, ok, id);
      }
    }
  }

  lemma ChargesStayDisjoint(p: Pricing, s: System, m: Metric, ok: bool, id: nat)
    requires Inv(p, s) && s.phase.Charging? && m in s.phase.totals
    ensures var n := DoCharge(p, s, m, ok, id);
            forall i, j :: 0 <= i < j < |n.charges| ==> Disjoint(n.charges[i], n.charges[j])
  {
    var n := DoCharge(p, s, m, ok, id);
    forall i, j | 0 <= i < j < |n.charges| ensures Disjoint(n.charges[i], n.charges[j]) {
      if j < |s.charges| {
        assert Disjoint(s.charges[i], s.charges[j]);
      } else {
        NewChargeDisjoint(p, s, m, id, s.charges[i]);
      }
    }
  }

  lemma ChargeFrame(p: Pricing, s: System, m: Metric, ok: bool, id: nat)
    requires Tiled(s) && PhaseOk(s) && s.phase.Charging? && m in s.phase.totals
    ensures Tiled(DoCharge(p, s, m, ok, id)) && PhaseOk(DoCharge(p, s, m, ok, id))
  {
    var n := DoCharge(p, s, m, ok, id);
    assert n.completed == s.completed;
    forall i | 0 <= i < |n.completed| - 1 ensures TileAt(n.completed, i) { assert TileAt(s.completed, i); }
  }

  lemma ChargeKeeps(p: Pricing, s: System, m: Metric, ok: bool, id: nat)
    requires Inv(p, s) && s.phase.Charging? && m in s.phase.totals
    ensures Inv(p, DoCharge(p, s, m, ok, id))
  {
    ChargesStay(p, s, m, ok, id);
    ChargesStayDisjoint(p, s, m, ok, id);
    ChargeFrame(p, s, m, ok, id);
  }

  lemma ChargeOkInBook(p: Pricing, s: System, op: Op, c: Charge)
    requires ChargeOk(p, s, c)
    ensures ChargeOk(p, s.(book := Apply(s.book, op)), c)
  {
    RefsStay(s.book, op, UsageRef(c.tenant, c.metric, c.lo, p.version));
  }

  lemma OtherKeeps(p: Pricing, s: System, op: Op)
    requires Inv(p, s)
    ensures Inv(p, Next(p, s, Other(op)))
  {
    if FreshOp(s.book, op) {
      var n := s.(book := Apply(s.book, op));
      TiledNext(p, s, Other(op));
      forall i | 0 <= i < |n.charges| ensures ChargeOk(p, n, n.charges[i]) { ChargeOkInBook(p, s, op, s.charges[i]); }
      assert PhaseOk(n);
    }
  }

  /** A step that leaves the books, the meter and the charges alone keeps every charge in place. */
  lemma QuietKeeps(p: Pricing, s: System, n: System)
    requires Inv(p, s) && Tiled(n) && PhaseOk(n)
    requires n.charges == s.charges && n.book == s.book && n.meter == s.meter
    requires forall i :: 0 <= i < |s.charges| ==> Placed(n.watermark, s.charges[i])
    ensures Inv(p, n)
  {
    forall i | 0 <= i < |n.charges| ensures ChargeOk(p, n, n.charges[i]) { assert ChargeOk(p, s, s.charges[i]); }
  }

  lemma PlacedAfter(p: Pricing, s: System, e: Event, i: nat)
    requires Inv(p, s) && Steady(s, e) && i < |s.charges|
    requires !e.Metered? && !e.ChargeMetric? && !e.Other?
    ensures Placed(Next(p, s, e).watermark, s.charges[i])
  {
    assert ChargeOk(p, s, s.charges[i]);
  }

  lemma QuietStepKeeps(p: Pricing, s: System, e: Event)
    requires Inv(p, s) && Steady(s, e) && !e.Metered? && !e.ChargeMetric? && !e.Other?
    ensures Inv(p, Next(p, s, e))
  {
    TiledNext(p, s, e);
    forall i | 0 <= i < |s.charges| ensures Placed(Next(p, s, e).watermark, s.charges[i]) {
      PlacedAfter(p, s, e, i);
    }
    QuietPhase(p, s, e);
    QuietKeeps(p, s, Next(p, s, e));
  }

  lemma QuietPhase(p: Pricing, s: System, e: Event)
    requires PhaseOk(s) && !e.Metered? && !e.ChargeMetric? && !e.Other?
    ensures PhaseOk(Next(p, s, e))
    ensures Next(p, s, e).charges == s.charges && Next(p, s, e).book == s.book && Next(p, s, e).meter == s.meter
  {
  }

  lemma NextKeeps(p: Pricing, s: System, e: Event)
    requires Inv(p, s) && Steady(s, e)
    ensures Inv(p, Next(p, s, e))
  {
    match e {
      case Metered(m) => MeteredKeeps(p, s, m);
      case ChargeMetric(m, ok, id) =>
        if s.phase.Charging? && m in s.phase.totals && id !in s.book.txns { ChargeKeeps(p, s, m, ok, id); }
      case Other(op) => OtherKeeps(p, s, op);
      case _ => QuietStepKeeps(p, s, e);
    }
  }

  ghost predicate SteadyRun(p: Pricing, s: System, events: seq<Event>) {
    forall i :: 0 <= i < |events| ==> Steady(Run(p, s, events[..i]), events[i])
  }

  lemma SteadyPrefix(p: Pricing, s: System, events: seq<Event>)
    requires SteadyRun(p, s, events) && events != []
    ensures SteadyRun(p, s, events[..|events| - 1])
    ensures Steady(Run(p, s, events[..|events| - 1]), events[|events| - 1])
  {
    var init := events[..|events| - 1];
    forall i | 0 <= i < |init| ensures Steady(Run(p, s, init[..i]), init[i]) {
      assert init[..i] == events[..i] && Steady(Run(p, s, events[..i]), events[i]);
    }
  }

  lemma {:induction false} ChargesDisjoint(p: Pricing, book: Book, clock: nat, events: seq<Event>)
    requires SteadyRun(p, Start(book, clock), events)
    ensures Inv(p, Run(p, Start(book, clock), events))
    decreases |events|
  {
    if events != [] {
      SteadyPrefix(p, Start(book, clock), events);
      ChargesDisjoint(p, book, clock, events[..|events| - 1]);
      NextKeeps(p, Run(p, Start(book, clock), events[..|events| - 1]), events[|events| - 1]);
    }
  }

  // ---- every charge is for something, in every run ----

  ghost predicate Genuine(p: Pricing, c: Charge) {
    c.lo <= c.hi && !c.metric.StorageBytes? && c.credits == RateOf(p, c.metric, c.total) && c.credits != 0
  }

  /** Runs begin and end at minute boundaries. */
  predicate OnMinutes(s: System) {
    && s.watermark % BUCKET_SECS == 0
    && (!s.phase.Resting? ==>
        s.phase.cur % BUCKET_SECS == 0 && s.phase.last % BUCKET_SECS == 0 && s.phase.last < s.phase.cur)
  }

  lemma OnMinutesNext(p: Pricing, s: System, e: Event)
    requires OnMinutes(s)
    ensures OnMinutes(Next(p, s, e))
  {
  }

  lemma WindowNotEmpty(s: System)
    requires OnMinutes(s) && !s.phase.Resting?
    ensures s.phase.last <= s.phase.cur - BUCKET_SECS
  {
  }

  lemma NewChargeGenuine(p: Pricing, s: System, m: Metric, ok: bool, id: nat)
    requires s.phase.Charging? && m in s.phase.totals && s.phase.last <= s.phase.cur - BUCKET_SECS
    ensures var n := DoCharge(p, s, m, ok, id);
            n.charges == s.charges
              || (n.charges == s.charges + [n.charges[|s.charges|]] && Genuine(p, n.charges[|s.charges|]))
  {
  }

  lemma GenuineNext(p: Pricing, s: System, e: Event, i: nat)
    requires OnMinutes(s) && forall j :: 0 <= j < |s.charges| ==> Genuine(p, s.charges[j])
    requires i < |Next(p, s, e).charges|
    ensures Genuine(p, Next(p, s, e).charges[i])
  {
    if e.ChargeMetric? && s.phase.Charging? && e.metric in s.phase.totals {
      WindowNotEmpty(s);
      NewChargeGenuine(p, s, e.metric, e.ok, e.id);
    } else {
      assert Next(p, s, e).charges == s.charges;
    }
  }

  lemma {:induction false} ChargesAreGenuine(p: Pricing, book: Book, clock: int, events: seq<Event>)
    ensures var s := Run(p, Start(book, clock), events);
            OnMinutes(s) && forall i :: 0 <= i < |s.charges| ==> Genuine(p, s.charges[i])
    decreases |events|
  {
    if events != [] {
      var init, e := events[..|events| - 1], events[|events| - 1];
      ChargesAreGenuine(p, book, clock, init);
      var s := Run(p, Start(book, clock), init);
      OnMinutesNext(p, s, e);
      forall i | 0 <= i < |Next(p, s, e).charges|
        ensures Genuine(p, Next(p, s, e).charges[i]) { GenuineNext(p, s, e, i); }
    }
  }

  // ---- a clock that never steps back is steady ----

  ghost predicate Forward(p: Pricing, s: System, events: seq<Event>) {
    forall i :: 0 <= i < |events| ==> ForwardAt(Run(p, s, events[..i]), events[i])
  }

  predicate ForwardAt(s: System, e: Event) { e.Clock? ==> s.clock <= e.t }

  predicate OnTime(s: System) {
    && 0 <= s.clock && s.reached <= BucketStart(s.clock) && (!s.phase.Resting? ==> s.phase.cur == s.reached)
    && forall i :: 0 <= i < |s.charges| ==> s.charges[i].hi < s.reached
  }

  lemma OnTimeNext(p: Pricing, s: System, e: Event)
    requires OnTime(s) && ForwardAt(s, e)
    ensures OnTime(Next(p, s, e))
  {
  }

  lemma OnTimeIsSteady(p: Pricing, s: System, e: Event)
    requires Inv(p, s) && OnTime(s)
    ensures Steady(s, e)
  {
    if e.Finish? && s.phase.Walking? && s.phase.todo == [] {
      forall i | 0 <= i < |s.charges| ensures Placed(s.phase.cur, s.charges[i]) { assert ChargeOk(p, s, s.charges[i]); }
    }
  }

  lemma {:induction false} OnTimeRun(p: Pricing, book: Book, clock: nat, events: seq<Event>, n: nat)
    requires Forward(p, Start(book, clock), events) && n <= |events|
    ensures Inv(p, Run(p, Start(book, clock), events[..n])) && OnTime(Run(p, Start(book, clock), events[..n]))
    decreases n
  {
    if n > 0 {
      OnTimeRun(p, book, clock, events, n - 1);
      var s := Run(p, Start(book, clock), events[..n - 1]);
      assert events[..n][..n - 1] == events[..n - 1];
      assert ForwardAt(s, events[n - 1]);
      OnTimeNext(p, s, events[n - 1]);
      OnTimeIsSteady(p, s, events[n - 1]);
      NextKeeps(p, s, events[n - 1]);
    } else {
      assert events[..n] == [];
    }
  }

  /** With a clock that never steps back every run is steady. */
  lemma ForwardIsSteady(p: Pricing, book: Book, clock: nat, events: seq<Event>)
    requires Forward(p, Start(book, clock), events)
    ensures SteadyRun(p, Start(book, clock), events)
  {
    var s := Start(book, clock);
    forall i | 0 <= i < |events| ensures Steady(Run(p, s, events[..i]), events[i]) {
      OnTimeRun(p, book, clock, events, i);
      OnTimeIsSteady(p, Run(p, s, events[..i]), events[i]);
    }
  }

  // ---- no more is charged than the usage recorded ----

  function TotalCharged(charges: seq<Charge>, t: TenantId, m: Metric): nat {
    if charges == [] then 0
    else
      var c := charges[|charges| - 1];
      TotalCharged(charges[..|charges| - 1], t, m) + if c.tenant == t && c.metric == m then c.total else 0
  }

  ghost function Covered(stored: Amounts, charges: seq<Charge>, t: TenantId, m: Metric): set<UsageKey> {
    if charges == [] then {}
    else
      var c := charges[|charges| - 1];
      Covered(stored, charges[..|charges| - 1], t, m)
      + if c.tenant == t && c.metric == m then KeysIn(stored, t, m, c.lo, c.hi) else {}
  }

  lemma {:induction false} CoveredKeys(stored: Amounts, charges: seq<Charge>, t: TenantId, m: Metric, k: UsageKey)
    requires k in Covered(stored, charges, t, m)
    ensures k.tenant == t && k.metric == m
  {
    if k !in KeysIn(stored, t, m, charges[|charges| - 1].lo, charges[|charges| - 1].hi) {
      CoveredKeys(stored, charges[..|charges| - 1], t, m, k);
    }
  }

  /** A window apart from all charged ones has no covered key. */
  lemma {:induction false} CoveredApart(stored: Amounts, charges: seq<Charge>, c: Charge)
    requires forall i :: 0 <= i < |charges| ==> Disjoint(charges[i], c)
    ensures Covered(stored, charges, c.tenant, c.metric) !! KeysIn(stored, c.tenant, c.metric, c.lo, c.hi)
    decreases |charges|
  {
    if charges != [] {
      var d := charges[|charges| - 1];
      CoveredApart(stored, charges[..|charges| - 1], c);
      assert Disjoint(d, c);
      if d.tenant == c.tenant && d.metric == c.metric {
        forall k | k in KeysIn(stored, d.tenant, d.metric, d.lo, d.hi)
          ensures k !in KeysIn(stored, c.tenant, c.metric, c.lo, c.hi) {}
      }
    }
  }

  /** Disjoint windows charge each stored unit at most once. */
  lemma {:induction false} ChargedWithinStored(stored: Amounts, charges: seq<Charge>, t: TenantId, m: Metric)
    requires forall i :: 0 <= i < |charges| ==>
               charges[i].total
                 <= WindowTotal(stored, charges[i].tenant, charges[i].metric, charges[i].lo, charges[i].hi)
    requires forall i, j :: 0 <= i < j < |charges| ==> Disjoint(charges[i], charges[j])
    ensures TotalCharged(charges, t, m) <= Total(Covered(stored, charges, t, m), stored)
    decreases |charges|
  {
    if charges != [] {
      var init, c := charges[..|charges| - 1], charges[|charges| - 1];
      ChargedWithinStored(stored, init, t, m);
      if c.tenant == t && c.metric == m {
        CoveredApart(stored, init, c);
        TotalUnion(Covered(stored, init, t, m), KeysIn(stored, t, m, c.lo, c.hi), stored);
      } else {
        assert Covered(stored, charges, t, m) == Covered(stored, init, t, m);
      }
    }
  }

  lemma {:induction false} CreditsWithin(p: Pricing, charges: seq<Charge>, t: TenantId, m: Metric)
    requires forall i :: 0 <= i < |charges| ==> charges[i].credits == RateOf(p, charges[i].metric, charges[i].total)
    ensures CreditsOf(charges, t, m) <= RawRateOf(p, m, TotalCharged(charges, t, m))
    decreases |charges|
  {
    if charges != [] {
      var init, c := charges[..|charges| - 1], charges[|charges| - 1];
      CreditsWithin(p, init, t, m);
      if c.tenant == t && c.metric == m && m in p.rules {
        RateIsCapped(p.rules[m].unitSize, p.rules[m].price, c.total);
        RawRateOfSum(p.rules[m].unitSize, p.rules[m].price, TotalCharged(init, t, m), c.total);
      }
    }
  }

  lemma {:induction false} MeterConserves(p: Pricing, book: Book, clock: int, events: seq<Event>, k: UsageKey)
    ensures Metering.Conserved(Run(p, Start(book, clock), events).meter, k)
    decreases |events|
  {
    if events != [] {
      var init, e := events[..|events| - 1], events[|events| - 1];
      MeterConserves(p, book, clock, init, k);
      if e.Metered? { Metering.NextConserves(Run(p, Start(book, clock), init).meter, e.e, k); }
    }
  }

  lemma StoredWithinRecorded(s: Metering.Meter, t: TenantId, m: Metric)
    requires forall k :: Metering.Conserved(s, k)
    ensures TotalOf(s.stored, t, m) <= TotalOf(s.recorded, t, m) + TotalOf(s.replayed, t, m)
  {
    var keys := KeysOf(s.stored, t, m);
    forall k | k in keys ensures Amount(s.stored, k) <= Amount(s.recorded, k) + Amount(s.replayed, k) {
      assert Metering.Conserved(s, k);
    }
    TotalBound(keys, s.stored, s.recorded, s.replayed);
    TotalWithin(keys, s.recorded, t, m);
    TotalWithin(keys, s.replayed, t, m);
  }

  lemma RawRateOfMonotone(p: Pricing, m: Metric, a: nat, b: nat)
    requires a <= b
    ensures RawRateOf(p, m, a) <= RawRateOf(p, m, b)
  {
    if m in p.rules { RawRateMonotone(p.rules[m].unitSize, p.rules[m].price, a, b); }
  }

  lemma RunStoredWithinRecorded(p: Pricing, book: Book, clock: int, events: seq<Event>, t: TenantId, m: Metric)
    ensures var s := Run(p, Start(book, clock), events).meter;
            TotalOf(s.stored, t, m) <= TotalOf(s.recorded, t, m) + TotalOf(s.replayed, t, m)
  {
    var s := Run(p, Start(book, clock), events).meter;
    forall k ensures Metering.Conserved(s, k) { MeterConserves(p, book, clock, events, k); }
    StoredWithinRecorded(s, t, m);
  }

  /** What is stored costs at most what was recorded and replayed. */
  ghost predicate PriceCovers(p: Pricing, s: Metering.Meter, t: TenantId, m: Metric) {
    RawRateOf(p, m, TotalOf(s.stored, t, m)) <= RawRateOf(p, m, TotalOf(s.recorded, t, m) + TotalOf(s.replayed, t, m))
  }

  lemma PriceOfRecorded(p: Pricing, s: Metering.Meter, t: TenantId, m: Metric)
    requires TotalOf(s.stored, t, m) <= TotalOf(s.recorded, t, m) + TotalOf(s.replayed, t, m)
    ensures PriceCovers(p, s, t, m)
  {
    RawRateOfMonotone(p, m, TotalOf(s.stored, t, m), TotalOf(s.recorded, t, m) + TotalOf(s.replayed, t, m));
  }

  lemma ChargedWithinPrice(p: Pricing, s: System, t: TenantId, m: Metric)
    requires Inv(p, s)
    ensures CreditsOf(s.charges, t, m) <= RawRateOf(p, m, TotalOf(s.meter.stored, t, m))
  {
    forall i | 0 <= i < |s.charges|
      ensures s.charges[i].credits == RateOf(p, s.charges[i].metric, s.charges[i].total)
      ensures s.charges[i].total
              <= WindowTotal(s.meter.stored, s.charges[i].tenant, s.charges[i].metric, s.charges[i].lo, s.charges[i].hi)
    {
      assert ChargeOk(p, s, s.charges[i]);
    }
    CreditsWithin(p, s.charges, t, m);
    ChargedWithinStored(s.meter.stored, s.charges, t, m);
    forall k | k in Covered(s.meter.stored, s.charges, t, m) ensures k.tenant == t && k.metric == m {
      CoveredKeys(s.meter.stored, s.charges, t, m, k);
    }
    TotalWithin(Covered(s.meter.stored, s.charges, t, m), s.meter.stored, t, m);
    RawRateOfMonotone(p, m, TotalCharged(s.charges, t, m), TotalOf(s.meter.stored, t, m));
  }

  ghost predicate WithinStoredPrice(p: Pricing, s: System, t: TenantId, m: Metric) {
    Spent(s.book.entries, t, m, p.version) <= RawRateOf(p, m, TotalOf(s.meter.stored, t, m))
  }

  lemma SpentWithinStored(p: Pricing, book: Book, clock: nat, events: seq<Event>, t: TenantId, m: Metric)
    requires NoCharges(book.entries) && SteadyRun(p, Start(book, clock), events)
    ensures WithinStoredPrice(p, Run(p, Start(book, clock), events), t, m)
  {
    ChargesDisjoint(p, book, clock, events);
    LedgerHoldsCharges(p, book, clock, events, t, m);
    ChargedWithinPrice(p, Run(p, Start(book, clock), events), t, m);
  }

  lemma CoveredPrice(p: Pricing, s: System, t: TenantId, m: Metric)
    requires WithinStoredPrice(p, s, t, m) && PriceCovers(p, s.meter, t, m)
    ensures WithinPrice(p, s, t, m)
  {
  }

  /** A tenant has paid at most the price of the usage recorded and replayed. */
  ghost predicate WithinPrice(p: Pricing, s: System, t: TenantId, m: Metric) {
    Spent(s.book.entries, t, m, p.version)
      <= RawRateOf(p, m, TotalOf(s.meter.recorded, t, m) + TotalOf(s.meter.replayed, t, m))
  }

  /** Over every steady run, what the ledger takes from a tenant for a metric is at most the price of the usage
      recorded for it plus the usage replayed after lost acknowledgements. */
  lemma NeverOvercharged(p: Pricing, book: Book, clock: nat, events: seq<Event>, t: TenantId, m: Metric)
    requires NoCharges(book.entries) && SteadyRun(p, Start(book, clock), events)
    ensures WithinPrice(p, Run(p, Start(book, clock), events), t, m)
  {
    SpentWithinStored(p, book, clock, events, t, m);
    RunStoredWithinRecorded(p, book, clock, events, t, m);
    PriceOfRecorded(p, Run(p, Start(book, clock), events).meter, t, m);
    CoveredPrice(p, Run(p, Start(book, clock), events), t, m);
  }

  /** No store call is applied without its acknowledgement reaching the meter. */
  predicate Acknowledged(events: seq<Event>) {
    forall i :: 0 <= i < |events| ==> !(events[i].Metered? && events[i].e.Settle? && events[i].e.reply.AckLost?)
  }

  lemma NoReplayStep(p: Pricing, s: System, e: Event)
    requires s.meter.replayed == map[] && !(e.Metered? && e.e.Settle? && e.e.reply.AckLost?)
    ensures Next(p, s, e).meter.replayed == map[]
  {
  }

  lemma {:induction false} NoReplays(p: Pricing, book: Book, clock: int, events: seq<Event>)
    requires Acknowledged(events)
    ensures Run(p, Start(book, clock), events).meter.replayed == map[]
    decreases |events|
  {
    if events != [] {
      NoReplays(p, book, clock, events[..|events| - 1]);
      NoReplayStep(p, Run(p, Start(book, clock), events[..|events| - 1]), events[|events| - 1]);
    }
  }

  lemma RateOfFitting(p: Pricing, m: Metric, units: nat)
    requires RawRateOf(p, m, units) <= I64_MAX
    ensures RateOf(p, m, units) == RawRateOf(p, m, units)
  {
    if m in p.rules { RateIsCapped(p.rules[m].unitSize, p.rules[m].price, units); }
  }

  lemma PriceWithoutReplays(p: Pricing, s: Metering.Meter, t: TenantId, m: Metric)
    requires s.replayed == map[] && RawRateOf(p, m, TotalOf(s.recorded, t, m)) <= I64_MAX
    ensures RawRateOf(p, m, TotalOf(s.recorded, t, m) + TotalOf(s.replayed, t, m))
            == RateOf(p, m, TotalOf(s.recorded, t, m))
  {
    assert KeysOf(s.replayed, t, m) == {};
    RateOfFitting(p, m, TotalOf(s.recorded, t, m));
  }

  /** A tenant has paid at most the rate of everything recorded, as long as that fits an i64. */
  ghost predicate WithinRate(p: Pricing, s: System, t: TenantId, m: Metric) {
    RawRateOf(p, m, TotalOf(s.meter.recorded, t, m)) <= I64_MAX ==>
      Spent(s.book.entries, t, m, p.version) <= RateOf(p, m, TotalOf(s.meter.recorded, t, m))
  }

  lemma WithinPriceIsWithinRate(p: Pricing, s: System, t: TenantId, m: Metric)
    requires WithinPrice(p, s, t, m) && s.meter.replayed == map[]
    ensures WithinRate(p, s, t, m)
  {
    if RawRateOf(p, m, TotalOf(s.meter.recorded, t, m)) <= I64_MAX { PriceWithoutReplays(p, s.meter, t, m); }
  }

  /** With a clock that never steps back and no lost acknowledgements, a tenant never pays more for a metric than the
      price of everything ever recorded for it, as long as that price fits. */
  lemma ChargedAtMostTheRate(p: Pricing, book: Book, clock: nat, events: seq<Event>, t: TenantId, m: Metric)
    requires NoCharges(book.entries) && Forward(p, Start(book, clock), events) && Acknowledged(events)
    ensures WithinRate(p, Run(p, Start(book, clock), events), t, m)
  {
    ForwardIsSteady(p, book, clock, events);
    NeverOvercharged(p, book, clock, events, t, m);
    NoReplays(p, book, clock, events);
    WithinPriceIsWithinRate(p, Run(p, Start(book, clock), events), t, m);
  }

  // ---- a settled bucket is closed, billed or not ----

  lemma ClosedNext(p: Pricing, s: System, e: Event, w: int, n: nat)
    requires Tiled(s) && 0 < w <= s.watermark && n <= |s.charges|
    requires forall i :: n <= i < |s.charges| ==> w <= s.charges[i].lo
    ensures w <= Next(p, s, e).watermark && s.charges <= Next(p, s, e).charges
    ensures forall i :: n <= i < |Next(p, s, e).charges| ==> w <= Next(p, s, e).charges[i].lo
  {
  }

  /** Once a run has completed, nothing before its watermark is ever charged again, whatever the clock does: an
      append that was refused in a completed run is not retried by a later one. */
  lemma {:induction false} SettledBucketsAreClosed(p: Pricing, s: System, events: seq<Event>)
    requires Tiled(s) && 0 < s.watermark
    ensures var n := Run(p, s, events);
            Tiled(n) && s.watermark <= n.watermark && s.charges <= n.charges
            && forall i :: |s.charges| <= i < |n.charges| ==> s.watermark <= n.charges[i].lo
    decreases |events|
  {
    if events != [] {
      var init, e := events[..|events| - 1], events[|events| - 1];
      SettledBucketsAreClosed(p, s, init);
      TiledNext(p, Run(p, s, init), e);
      ClosedNext(p, Run(p, s, init), e, s.watermark, |s.charges|);
    }
  }
}
